/**
 The file layer over time: a preloaded descriptor is a snapshot of its file, and opening then
 closing gives everything back.
 */
module SivRuns {
  import opened Options
  import opened Words
  import opened Bitmaps
  import opened Machines
  import opened Ownership
  import opened Heap
  import opened Vectors
  import opened TarFormat
  import opened Tar
  import opened Descriptors
  import opened Siv
  import Runs = SystemRuns

  /** A write to one member of a mounted archive leaves the drive mounted. */
  lemma MountedAfterWrite(s: Snap, s': Snap, c: Contents, base: nat, fileSize: nat, limit: nat, ws: seq<Member>,
                          i: nat, off: nat, bytes: seq<byte>)
    requires c.hdrNum <= |ws| && Mounted(s, c, Offsets(base, 0, ws)[..c.hdrNum])
    requires ArchiveAt(s.memory, base, fileSize, 0, limit, ws) && i < |ws| && off + |bytes| <= |ws[i].data|
    requires StoredAt(s.memory, s'.memory, Offsets(base, 0, ws)[i] + BLOCK + off, bytes)
    requires s'.owners == s.owners && s.owners.Inv()
    requires Reserved(s.owners.usable, |s.memory|, Offsets(base, 0, ws)[i] + BLOCK + off,
                      Offsets(base, 0, ws)[i] + BLOCK + off + |bytes|)
    ensures Mounted(s', c, Offsets(base, 0, ws)[..c.hdrNum])
  {
    hide MemberAt, Stride, Elements, Octal, SizeAt, Owners.Inv, NumPages, ArchiveAt, Offsets;
    var ws' := ws[i := ws[i].(data := Patched(ws[i].data, off, bytes))];
    var hs := Offsets(base, 0, ws);
    WritePatchesOneMember(s.memory, s'.memory, base, fileSize, 0, limit, ws, i, off, bytes);
    PatchedLength(ws[i].data, off, bytes);
    forall j | 0 <= j < c.hdrNum
      ensures hs[..c.hdrNum][j] + BLOCK <= |s'.memory|
      ensures SizeAt(s'.memory, hs[..c.hdrNum][j]) == SizeAt(s.memory, hs[..c.hdrNum][j])
    {
      MembersInPlace(s.memory, base, fileSize, 0, limit, ws, j);
      MembersInPlace(s'.memory, base, fileSize, 0, limit, ws', j);
      MemberSize(s.memory, hs[j], ws[j]);
      MemberSize(s'.memory, hs[j], ws'[j]);
    }
    ListAfterWrite(s, s', c, hs[i] + BLOCK + off, bytes);
  }

  lemma ListAfterWrite(s: Snap, s': Snap, c: Contents, lo: nat, bytes: seq<byte>)
    requires IsBlock(s.owners.blocks, c.headers) && c.headers + ELEM * c.hdrNum <= |s.memory|
    requires ELEM * c.hdrNum <= s.owners.blocks[c.headers / PAGE_SIZE]
    requires PayloadFits(s.owners.blocks[c.headers / PAGE_SIZE]) && s.owners.Inv()
    requires StoredAt(s.memory, s'.memory, lo, bytes)
    requires Reserved(s.owners.usable, |s.memory|, lo, lo + |bytes|)
    ensures |s'.memory| == |s.memory|
    ensures Elements(s'.memory, c.headers, c.hdrNum) == Elements(s.memory, c.headers, c.hdrNum)
  {
    hide Word, NumPages, Owners.Inv;
    var b := c.headers / PAGE_SIZE;
    BlockFreeable(s.owners, b);
    forall a | c.headers <= a < c.headers + ELEM * c.hdrNum ensures s'.memory[a] == s.memory[a] {
      PayloadPages(s.owners, b, a);
    }
    assert s'.memory[c.headers..c.headers + ELEM * c.hdrNum] == s.memory[c.headers..c.headers + ELEM * c.hdrNum];
    SameElements(s'.memory, s.memory, c.headers, c.headers, c.hdrNum);
  }

  // ------------------------------------------------------------------------ runs of calls

  /** A run: the calls cs lead through the memory states ss and the descriptor tables ts. */
  ghost predicate IsFileRun(ss: seq<Snap>, ts: seq<Files>, cs: seq<Call>) {
    |ss| == |ts| == |cs| + 1 && forall i | 0 <= i < |cs| :: FileStep(ss[i], ts[i], cs[i], ss[i + 1], ts[i + 1])
  }

  /** The call ends the life of descriptor fd's copy: it closes fd, or uses the copy as a buffer. */
  predicate Ends(t: Files, c: Call, fd: nat) {
    match c
    case Close(g) => g == fd
    case Read(_, _, _, block, _, _, _) => t.Holds(fd, block)
    case Kernel(action) => action.Wrote? && t.Holds(fd, action.block)
    case Open(_, _, _) => false
    case Write(_, _) => false
  }

  /** What the steps do to memory. */
  ghost function Actions(ts: seq<Files>, cs: seq<Call>): (acts: seq<Action>)
    requires |ts| == |cs| + 1 && forall i | 0 <= i < |ts| :: ts[i].Sized()
    ensures |acts| == |cs| && forall i | 0 <= i < |cs| :: acts[i] == ActionOf(ts[i], cs[i], ts[i + 1])
  {
    if cs == [] then [] else Actions(ts[..|cs|], cs[..|cs| - 1]) + [ActionOf(ts[|cs| - 1], cs[|cs| - 1], ts[|cs|])]
  }

  /** A run of calls, seen as a run of the kernel's memory. */
  lemma FileRunIsRun(ss: seq<Snap>, ts: seq<Files>, cs: seq<Call>)
    requires IsFileRun(ss, ts, cs) && cs != []
    ensures forall i | 0 <= i < |ts| :: ts[i].Sized()
    ensures Runs.IsRun(ss, Actions(ts, cs))
  {
    hide Runs.Step, ActionOf, Files.Sized;
    forall i | 0 <= i < |ts| ensures ts[i].Sized() {
      if i < |cs| { StepSized(ss[i], ts[i], cs[i], ss[i + 1], ts[i + 1]); }
      else { StepSized(ss[i - 1], ts[i - 1], cs[i - 1], ss[i], ts[i]); }
    }
    forall i | 0 <= i < |cs| ensures Runs.Step(ss[i], Actions(ts, cs)[i], ss[i + 1]) {
      StepSized(ss[i], ts[i], cs[i], ss[i + 1], ts[i + 1]);
    }
  }

  lemma StepSized(s: Snap, t: Files, c: Call, s': Snap, t': Files)
    requires FileStep(s, t, c, s', t')
    ensures t.Sized() && t'.Sized() && Runs.Step(s, ActionOf(t, c, t'), s')
  {
    hide Runs.Step, ActionOf, Files.Sized;
  }

  /** The owners of blocks before and after a step that neither ends nor moves any of fd's. */
  lemma BlockStays(s: Snap, a: Action, s': Snap, p: nat, size: nat, c: Contents)
    requires Does(s, a, s') && OwnsBlock(s.owners.blocks, p, size, c)
    requires (a.Dropped? || a.Moved?) ==> a.block != p / PAGE_SIZE
    ensures OwnsBlock(s'.owners.blocks, p, size, c)
  {
    hide ChangesOnly, NumPages, PayloadFits;
  }

  /** Descriptors keep owning their blocks, each its own, and stay apart from the header list. */
  lemma StepFilesOk(s: Snap, t: Files, c: Call, s': Snap, t': Files)
    requires FileStep(s, t, c, s', t') && FilesOk(s.owners.blocks, t)
    ensures FilesOk(s'.owners.blocks, t')
  {
    hide Does, NumPages, PayloadFits, Runs.HeadersWritten, Runs.TablesAligned, OwnsBlock, Rejected, Delivers, HoldsFile;
    forall fd: nat | fd < MAX_OPEN_FILES && t'.contents[fd].Some?
      ensures OwnsBlock(s'.owners.blocks, t'.contents[fd].value, t'.files[fd].size, t'.tar)
      ensures forall gd: nat | gd < MAX_OPEN_FILES && gd != fd && t'.contents[gd].Some? ::
        t'.contents[fd].value != t'.contents[gd].value
    {
      if c.Open? && fd == t.numOpen {
        forall gd: nat | gd < MAX_OPEN_FILES && gd != fd && t'.contents[gd].Some?
          ensures t'.contents[fd].value != t'.contents[gd].value
        {
          NewBlockApart(s, s', t'.contents[fd].value, c.found.value, c.props.size, t, gd);
        }
      } else {
        assert t'.contents[fd] == t.contents[fd] && t'.files[fd] == t.files[fd];
        OthersAction(s, t, c, s', t', fd);
        BlockStays(s, ActionOf(t, c, t'), s', t.contents[fd].value, t.files[fd].size, t.tar);
        forall gd: nat | gd < MAX_OPEN_FILES && gd != fd && t'.contents[gd].Some?
          ensures t'.contents[fd].value != t'.contents[gd].value
        {
          if c.Open? && gd == t.numOpen {
            NewBlockApart(s, s', t'.contents[gd].value, c.found.value, c.props.size, t, fd);
          }
        }
      }
    }
  }

  /** The block of a new copy was nobody's. */
  lemma NewBlockApart(s: Snap, s': Snap, p: nat, h: nat, size: nat, t: Files, gd: nat)
    requires HoldsFile(s, s', p, h, size) && FilesOk(s.owners.blocks, t)
    requires gd < MAX_OPEN_FILES && t.contents[gd].Some?
    ensures t.contents[gd].value != p
  {
    hide ChangesOnly, NumPages, PayloadFits;
    assert OwnsBlock(s.owners.blocks, t.contents[gd].value, t.files[gd].size, t.tar);
  }

  /** What a call does to memory spares the copies of the descriptors it is not about. */
  lemma OthersAction(s: Snap, t: Files, c: Call, s': Snap, t': Files, fd: nat)
    requires FileStep(s, t, c, s', t') && FilesOk(s.owners.blocks, t)
    requires fd < MAX_OPEN_FILES && t.contents[fd].Some? && !(c.Close? && c.fd == fd)
    ensures var a := ActionOf(t, c, t');
      ((a.Dropped? || a.Moved?) ==> a.block != t.contents[fd].value / PAGE_SIZE)
      && (!Ends(t, c, fd) ==> !Runs.Touches(a, t.contents[fd].value / PAGE_SIZE))
  {
    hide Runs.Step, NumPages, PayloadFits, HoldsFile, Delivers, Rejected;
    assert t.Holds(fd, t.contents[fd].value / PAGE_SIZE);
    if c.Close? && t.contents[c.fd].Some? {
      assert OwnsBlock(s.owners.blocks, t.contents[fd].value, t.files[fd].size, t.tar);
      assert OwnsBlock(s.owners.blocks, t.contents[c.fd].value, t.files[c.fd].size, t.tar);
      OtherPage(t.contents[fd].value, t.contents[c.fd].value);
    }
  }

  lemma OtherPage(p: nat, q: nat)
    requires p % PAGE_SIZE == HEADER && q % PAGE_SIZE == HEADER && p != q
    ensures p / PAGE_SIZE != q / PAGE_SIZE
  {
  }

  lemma StepKeepsDescriptor(s: Snap, t: Files, c: Call, s': Snap, t': Files, fd: nat)
    requires FileStep(s, t, c, s', t') && FilesOk(s.owners.blocks, t)
    requires fd < MAX_OPEN_FILES && t.contents[fd].Some? && !Ends(t, c, fd)
    ensures fd < |t'.contents| && t'.contents[fd] == t.contents[fd] && t'.files[fd] == t.files[fd] && t'.tar == t.tar
  {
    hide Runs.Step, NumPages, PayloadFits, HoldsFile, Delivers, Rejected, OwnsBlock;
  }

  lemma {:induction false} DescriptorOverRun(ss: seq<Snap>, ts: seq<Files>, cs: seq<Call>, j: nat, n: nat, fd: nat)
    requires IsFileRun(ss, ts, cs) && j <= n <= |cs| && FilesOk(ss[j].owners.blocks, ts[j])
    requires fd < MAX_OPEN_FILES && ts[j].contents[fd].Some?
    requires forall i | j <= i < n :: !Ends(ts[i], cs[i], fd)
    ensures FilesOk(ss[n].owners.blocks, ts[n]) && fd < |ts[n].contents|
    ensures ts[n].contents[fd] == ts[j].contents[fd] && ts[n].files[fd] == ts[j].files[fd]
    decreases n
  {
    hide FileStep, OwnsBlock, Ends;
    if j < n {
      DescriptorOverRun(ss, ts, cs, j, n - 1, fd);
      assert !Ends(ts[n - 1], cs[n - 1], fd);
      StepFilesOk(ss[n - 1], ts[n - 1], cs[n - 1], ss[n], ts[n]);
      StepKeepsDescriptor(ss[n - 1], ts[n - 1], cs[n - 1], ss[n], ts[n], fd);
    }
  }

  lemma {:induction false} FilesOkOverRun(ss: seq<Snap>, ts: seq<Files>, cs: seq<Call>, n: nat)
    requires IsFileRun(ss, ts, cs) && n <= |cs| && FilesOk(ss[0].owners.blocks, ts[0])
    ensures FilesOk(ss[n].owners.blocks, ts[n])
  {
    hide FileStep, FilesOk;
    if n > 0 {
      FilesOkOverRun(ss, ts, cs, n - 1);
      StepFilesOk(ss[n - 1], ts[n - 1], cs[n - 1], ss[n], ts[n]);
    }
  }

  /** Descriptor fd was preloaded with `bytes`, and the copy still holds them. */
  ghost predicate Preloaded(s: Snap, t: Files, fd: nat, bytes: seq<byte>) {
    && fd < |t.contents| && fd < |t.files| && t.contents[fd].Some? && t.files[fd].size == |bytes|
    && IsBlock(s.owners.blocks, t.contents[fd].value) && s.owners.blocks[t.contents[fd].value / PAGE_SIZE] == |bytes|
    && t.contents[fd].value + |bytes| <= |s.memory|
    && s.memory[t.contents[fd].value..t.contents[fd].value + |bytes|] == bytes
  }

  lemma OpenPreloads(s: Snap, t: Files, c: Call, s': Snap, t': Files)
    requires FileStep(s, t, c, s', t') && c.Open? && c.preload && !Rejected(c.props)
    ensures c.found.Some? && c.found.value + BLOCK + c.props.size <= |s.memory| && t.numOpen < MAX_OPEN_FILES
    ensures Preloaded(s', t', t.numOpen,
              s.memory[c.found.value + BLOCK..c.found.value + BLOCK + c.props.size])
  {
    hide Runs.Step, NumPages, PayloadFits, Rejected, ActionOf, Does;
  }

  /**
   Snapshot semantics over whole runs: call j opens a file with a preload. Whatever calls
   follow, also writes to the file and calls on other descriptors, until the descriptor is
   closed or its copy is used as a buffer the descriptor keeps its copy with the bytes the file
   had at the open, and every read of it delivers those.
   */
  lemma PreloadIsASnapshot(ss: seq<Snap>, ts: seq<Files>, cs: seq<Call>, j: nat, n: nat)
    requires IsFileRun(ss, ts, cs) && Runs.Safe(ss[0]) && FilesOk(ss[0].owners.blocks, ts[0]) && j < n <= |cs|
    requires cs[j].Open? && cs[j].preload && !Rejected(cs[j].props)
    requires forall i | j < i < n :: !Ends(ts[i], cs[i], ts[j].numOpen)
    ensures cs[j].found.Some? && cs[j].found.value + BLOCK + cs[j].props.size <= |ss[j].memory|
    ensures var atOpen := ss[j].memory[cs[j].found.value + BLOCK..cs[j].found.value + BLOCK + cs[j].props.size];
      && Preloaded(ss[n], ts[n], ts[j].numOpen, atOpen)
      && (n < |cs| && cs[n].Read? && cs[n].fd == ts[j].numOpen ==>
            && cs[n].offset + cs[n].size <= |atOpen|
            && cs[n].got == atOpen[cs[n].offset..cs[n].offset + cs[n].size])
  {
    hide FileStep, FilesOk, Runs.Safe, Preloaded, Ends, Rejected;
    var fd, c := ts[j].numOpen, cs[j];
    FilesOkOverRun(ss, ts, cs, j + 1);
    OpenPreloads(ss[j], ts[j], c, ss[j + 1], ts[j + 1]);
    var atOpen := ss[j].memory[c.found.value + BLOCK..c.found.value + BLOCK + c.props.size];
    CopyOverRun(ss, ts, cs, j + 1, n, fd, atOpen);
    if n < |cs| && cs[n].Read? && cs[n].fd == fd {
      ReadDelivers(ss[n], ts[n], cs[n], ss[n + 1], ts[n + 1], atOpen);
    }
  }

  /** A copy survives the calls that do not end it. */
  lemma CopyOverRun(ss: seq<Snap>, ts: seq<Files>, cs: seq<Call>, j: nat, n: nat, fd: nat, bytes: seq<byte>)
    requires IsFileRun(ss, ts, cs) && Runs.Safe(ss[0]) && j <= n <= |cs| && cs != []
    requires FilesOk(ss[j].owners.blocks, ts[j]) && fd < MAX_OPEN_FILES && Preloaded(ss[j], ts[j], fd, bytes)
    requires forall i | j <= i < n :: !Ends(ts[i], cs[i], fd)
    ensures Preloaded(ss[n], ts[n], fd, bytes)
  {
    hide FileStep, Runs.Safe, Ends, Runs.Step, ActionOf, Runs.Touches, NumPages, PayloadFits, Does, FilesOk;
    FilesOwn(ss[j], ts[j], fd);
    DescriptorOverRun(ss, ts, cs, j, n, fd);
    FilesOwn(ss[n], ts[n], fd);
    BlockOverRun(ss, ts, cs, j, n, fd, bytes);
  }

  /** The block of the copy keeps its bytes. */
  lemma BlockOverRun(ss: seq<Snap>, ts: seq<Files>, cs: seq<Call>, j: nat, n: nat, fd: nat, bytes: seq<byte>)
    requires IsFileRun(ss, ts, cs) && Runs.Safe(ss[0]) && j <= n <= |cs| && cs != []
    requires FilesOk(ss[j].owners.blocks, ts[j]) && fd < MAX_OPEN_FILES && Preloaded(ss[j], ts[j], fd, bytes)
    requires forall i | j <= i < n :: !Ends(ts[i], cs[i], fd)
    ensures var p := ts[j].contents[fd].value;
      && p + |bytes| <= |ss[n].memory| && p / PAGE_SIZE in ss[n].owners.blocks
      && ss[n].memory[p..p + |bytes|] == bytes
  {
    hide FileStep, Runs.Safe, Ends, Runs.Step, ActionOf, Runs.Touches, NumPages, PayloadFits, Does, FilesOk;
    FileRunIsRun(ss, ts, cs);
    var acts, p := Actions(ts, cs), ts[j].contents[fd].value;
    Runs.RunSafe(ss, acts, j);
    FilesOwn(ss[j], ts[j], fd);
    forall i | j <= i < n ensures !Runs.Touches(acts[i], p / PAGE_SIZE) {
      DescriptorOverRun(ss, ts, cs, j, i, fd);
      OthersSpare(ss[i], ts[i], cs[i], ss[i + 1], ts[i + 1], fd);
    }
    assert p == p / PAGE_SIZE * PAGE_SIZE + HEADER;
    RunSuffix(ss, acts, j);
    CopyKept(ss[j..], acts[j..], p / PAGE_SIZE, bytes, n - j);
  }

  lemma RunSuffix(ss: seq<Snap>, acts: seq<Action>, j: nat)
    requires Runs.IsRun(ss, acts) && j <= |acts|
    ensures Runs.IsRun(ss[j..], acts[j..])
  {
    hide Runs.Step;
  }

  lemma FilesOwn(s: Snap, t: Files, fd: nat)
    requires FilesOk(s.owners.blocks, t) && fd < MAX_OPEN_FILES && t.contents[fd].Some?
    ensures t.Sized() && OwnsBlock(s.owners.blocks, t.contents[fd].value, t.files[fd].size, t.tar)
  {
    hide OwnsBlock;
  }

  lemma OthersSpare(s: Snap, t: Files, c: Call, s': Snap, t': Files, fd: nat)
    requires FileStep(s, t, c, s', t') && FilesOk(s.owners.blocks, t)
    requires fd < MAX_OPEN_FILES && t.contents[fd].Some? && !Ends(t, c, fd)
    ensures t.Sized() && t'.Sized() && !Runs.Touches(ActionOf(t, c, t'), t.contents[fd].value / PAGE_SIZE)
  {
    hide Runs.Step, OwnsBlock, ActionOf, Runs.Touches;
    OthersAction(s, t, c, s', t', fd);
  }

  /** A read of a preloaded descriptor delivers the copy's bytes. */
  lemma ReadDelivers(s: Snap, t: Files, c: Call, s': Snap, t': Files, bytes: seq<byte>)
    requires FileStep(s, t, c, s', t') && c.Read? && Preloaded(s, t, c.fd, bytes)
    ensures c.offset + c.size <= |bytes| && c.got == bytes[c.offset..c.offset + c.size]
  {
    hide Runs.Step, ActionOf;
    var p := t.contents[c.fd].value;
    SliceOfSlice(s.memory, p, p + |bytes|, c.offset, c.offset + c.size);
  }

  /**
   A block keeps the bytes of its payload over any steps of the system that do not free, move
   or write it.
   */
  lemma CopyKept(ss: seq<Snap>, acts: seq<Action>, b: nat, bytes: seq<byte>, n: nat)
    requires Runs.IsRun(ss, acts) && Runs.Safe(ss[0]) && n <= |acts|
    requires b in ss[0].owners.blocks && ss[0].owners.blocks[b] == |bytes| && PayloadFits(|bytes|)
    requires b * PAGE_SIZE + HEADER + |bytes| <= |ss[0].memory| && Payload(ss[0].memory, b, |bytes|) == bytes
    requires forall i | 0 <= i < n :: !Runs.Touches(acts[i], b)
    ensures b in ss[n].owners.blocks && |ss[n].memory| == |ss[0].memory|
    ensures Payload(ss[n].memory, b, |bytes|) == bytes
  {
    hide Runs.Safe, Runs.Step, NumPages, PayloadFits;
    Runs.UntouchedBlockSurvives(ss, acts, b, n);
    var lo, hi := b * PAGE_SIZE + HEADER, b * PAGE_SIZE + HEADER + |bytes|;
    forall a | lo <= a < hi ensures ss[n].memory[a] == ss[0].memory[a] {
      PayloadPages(ss[0].owners, b, a);
    }
    assert ss[n].memory[lo..hi] == ss[0].memory[lo..hi];
  }

  // ------------------------------------------------------------- reads between two writes

  /** No one allocates the addresses lo .. lo + n - 1, and they hold no table and no bitmap byte. */
  ghost predicate OutsideKernel(s: Snap, lo: nat, n: nat) {
    && lo + n <= |s.memory|
    && forall a: nat | lo <= a < lo + n ::
         && a / PAGE_SIZE !in s.owners.usable && a / PAGE_SIZE !in s.owners.bitmap
         && a / PAGE_SIZE * PAGE_SIZE !in s.owners.forest
  }

  /** If the step writes memory outside the kernel's reach, as siv_write does, it writes elsewhere. */
  ghost predicate WritesElsewhere(s: Snap, a: Action, s': Snap, lo: nat, n: nat) {
    a.Outside? ==>
      exists pos: nat, bytes: seq<byte> ::
        StoredAt(s.memory, s'.memory, pos, bytes) && (pos + |bytes| <= lo || lo + n <= pos)
  }

  /** The call is a siv_write to some of the addresses lo .. lo + n - 1. */
  predicate Overwrites(c: Call, lo: nat, n: nat) { c.Write? && c.at < lo + n && lo < c.at + |c.bytes| }

  lemma CallsWriteElsewhere(s: Snap, t: Files, c: Call, s': Snap, t': Files, lo: nat, n: nat)
    requires FileStep(s, t, c, s', t') && !Overwrites(c, lo, n)
    ensures t.Sized() && t'.Sized() && WritesElsewhere(s, ActionOf(t, c, t'), s', lo, n)
  {
    hide NumPages, PayloadFits, Delivers, Rejected, HoldsFile, PagesOf, Runs.HeadersWritten, Runs.TablesAligned;
    if (c.Open? || c.Close?) && ActionOf(t, c, t').Outside? {
      assert StoredAt(s.memory, s'.memory, 0, []);
    } else if c.Write? && |c.bytes| == 0 {
      assert StoredAt(s.memory, s'.memory, 0, c.bytes);
    }
  }

  /** Heap, paging and file-layer steps that write elsewhere keep the file's bytes. */
  lemma StepKeepsFile(s: Snap, a: Action, s': Snap, lo: nat, n: nat)
    requires Runs.Safe(s) && Runs.Step(s, a, s') && OutsideKernel(s, lo, n) && WritesElsewhere(s, a, s', lo, n)
    ensures OutsideKernel(s', lo, n) && s'.memory[lo..lo + n] == s.memory[lo..lo + n]
  {
    hide NumPages, Word, Runs.HeadersWritten;
    Runs.StepLength(s, a, s');
    forall x: nat | lo <= x < lo + n
      ensures s'.memory[x] == s.memory[x] && x / PAGE_SIZE !in s'.owners.usable
      ensures x / PAGE_SIZE !in s'.owners.bitmap && x / PAGE_SIZE * PAGE_SIZE !in s'.owners.forest
    {
      ByteKept(s, a, s', lo, n, x);
    }
  }

  lemma ByteKept(s: Snap, a: Action, s': Snap, lo: nat, n: nat, x: nat)
    requires Runs.Safe(s) && Runs.Step(s, a, s') && OutsideKernel(s, lo, n) && WritesElsewhere(s, a, s', lo, n)
    requires lo <= x < lo + n && |s'.memory| == |s.memory|
    ensures s'.memory[x] == s.memory[x] && x / PAGE_SIZE !in s'.owners.usable
    ensures x / PAGE_SIZE !in s'.owners.bitmap && x / PAGE_SIZE * PAGE_SIZE !in s'.owners.forest
  {
    hide NumPages, Word, Runs.HeadersWritten;
    var p := x / PAGE_SIZE;
    assert p * PAGE_SIZE / PAGE_SIZE == p;
    match a
    case Moved(b, c, size, kept) => assert p !in s.owners.BlockPages(b);
    case Wrote(b) => assert p !in s.owners.BlockPages(b);
    case Took(_, _) =>
    case Dropped(_) =>
    case Paged =>
    case Requested(_, _) =>
    case Overlapped(_, _) =>
    case Outside(_) =>
  }

  lemma {:induction false} FileKeptOverRun(ss: seq<Snap>, acts: seq<Action>, lo: nat, len: nat, n: nat)
    requires Runs.IsRun(ss, acts) && Runs.Safe(ss[0]) && n <= |acts| && OutsideKernel(ss[0], lo, len)
    requires forall i | 0 <= i < n :: WritesElsewhere(ss[i], acts[i], ss[i + 1], lo, len)
    ensures OutsideKernel(ss[n], lo, len) && ss[n].memory[lo..lo + len] == ss[0].memory[lo..lo + len]
  {
    hide Runs.Safe, Runs.Step, OutsideKernel, WritesElsewhere;
    InMemory(ss[0], lo, len);
    if n > 0 {
      FileKeptOverRun(ss, acts, lo, len, n - 1);
      Runs.RunSafe(ss, acts, n - 1);
      assert Runs.Step(ss[n - 1], acts[n - 1], ss[n]);
      StepKeepsFile(ss[n - 1], acts[n - 1], ss[n], lo, len);
      InMemory(ss[n - 1], lo, len);
      InMemory(ss[n], lo, len);
    }
  }

  lemma InMemory(s: Snap, lo: nat, n: nat)
    requires OutsideKernel(s, lo, n)
    ensures lo + n <= |s.memory|
  {
  }

  /**
   As long as no siv_write overwrites a stretch of the file, a preloaded descriptor and one
   without a copy deliver the same bytes there: those the file has now are those it had at open.
   */
  lemma ReadsAgreeUntilWritten(ss: seq<Snap>, ts: seq<Files>, cs: seq<Call>, j: nat, n: nat, off: nat, len: nat)
    requires IsFileRun(ss, ts, cs) && Runs.Safe(ss[0]) && FilesOk(ss[0].owners.blocks, ts[0]) && j < n <= |cs|
    requires cs[j].Open? && cs[j].preload && !Rejected(cs[j].props) && cs[j].found.Some?
    requires off + len <= cs[j].props.size && OutsideKernel(ss[j], cs[j].found.value + BLOCK + off, len)
    requires forall i | j < i < n :: !Ends(ts[i], cs[i], ts[j].numOpen)
    requires forall i | j < i < n :: !Overwrites(cs[i], cs[j].found.value + BLOCK + off, len)
    ensures var fd, h := ts[j].numOpen, cs[j].found.value;
      && fd < |ts[n].contents| && ts[n].contents[fd].Some? && ts[n].contents[fd].value + off + len <= |ss[n].memory|
      && h + BLOCK + off + len <= |ss[n].memory|
      && Source(ss[n].memory, ts[n].contents[fd], h, off, len) == Source(ss[n].memory, None, h, off, len)
  {
    hide FileStep, FilesOk, Runs.Safe, Ends, Rejected, OutsideKernel, Overwrites;
    var fd, h, size := ts[j].numOpen, cs[j].found.value, cs[j].props.size;
    PreloadIsASnapshot(ss, ts, cs, j, n);
    NotAWrite(cs[j], h + BLOCK + off, len);
    StretchOverRun(ss, ts, cs, j, n, h + BLOCK + off, len);
    SameSource(ss[j].memory, ss[n].memory, ts[n].contents[fd].value, h, size, off, len);
    assert ts[n].contents[fd] == Some(ts[n].contents[fd].value);
  }

  lemma SameSource(m0: seq<byte>, m: seq<byte>, p: nat, h: nat, size: nat, off: nat, len: nat)
    requires h + BLOCK + size <= |m0| && p + size <= |m| && off + len <= size && h + BLOCK + off + len <= |m|
    requires m[p..p + size] == m0[h + BLOCK..h + BLOCK + size]
    requires m[h + BLOCK + off..h + BLOCK + off + len] == m0[h + BLOCK + off..h + BLOCK + off + len]
    ensures Source(m, Some(p), h, off, len) == Source(m, None, h, off, len)
  {
    SliceOfSlice(m, p, p + size, off, off + len);
    SliceOfSlice(m0, h + BLOCK, h + BLOCK + size, off, off + len);
  }

  /** A stretch outside the kernel's reach keeps its bytes until a siv_write overwrites some. */
  lemma StretchOverRun(ss: seq<Snap>, ts: seq<Files>, cs: seq<Call>, j: nat, n: nat, lo: nat, len: nat)
    requires IsFileRun(ss, ts, cs) && Runs.Safe(ss[0]) && j <= n <= |cs| && cs != [] && OutsideKernel(ss[j], lo, len)
    requires forall i | j <= i < n :: !Overwrites(cs[i], lo, len)
    ensures lo + len <= |ss[j].memory| && lo + len <= |ss[n].memory|
    ensures ss[n].memory[lo..lo + len] == ss[j].memory[lo..lo + len]
  {
    hide FileStep, Runs.Safe, OutsideKernel, Overwrites, WritesElsewhere, Runs.Step, ActionOf;
    FileRunIsRun(ss, ts, cs);
    var acts := Actions(ts, cs);
    Runs.RunSafe(ss, acts, j);
    forall i | j <= i < n ensures WritesElsewhere(ss[i], acts[i], ss[i + 1], lo, len) {
      CallsWriteElsewhere(ss[i], ts[i], cs[i], ss[i + 1], ts[i + 1], lo, len);
    }
    FileKeptOverRun(ss[j..], acts[j..], lo, len, n - j);
    InMemory(ss[j], lo, len);
    InMemory(ss[n], lo, len);
  }

  lemma NotAWrite(c: Call, lo: nat, n: nat)
    requires !c.Write?
    ensures !Overwrites(c, lo, n)
  {
  }

  /**
   In-range reads through a preloaded and through an unpreloaded descriptor agree exactly when
   the file's bytes there are the ones it had at open.
   */
  lemma ReadsAgreeIff(m: seq<byte>, b: nat, h: nat, atOpen: seq<byte>, w: Member, off: nat, n: nat)
    requires b * PAGE_SIZE + HEADER + |atOpen| <= |m| && Payload(m, b, |atOpen|) == atOpen
    requires MemberAt(m, h, w) && off + n <= |w.data| && off + n <= |atOpen|
    ensures h + BLOCK + off + n <= |m| && SizeAt(m, h) == |w.data|
    ensures Source(m, Some(b * PAGE_SIZE + HEADER), h, off, n) == Source(m, None, h, off, n)
       <==> atOpen[off..off + n] == w.data[off..off + n]
  {
    hide Octal, OctalDigits, SizeAt, MemberAt;
    MemberBytes(m, h, w, off, n);
    PayloadSlice(m, b, atOpen, off, n);
  }

  lemma PayloadSlice(m: seq<byte>, b: nat, bytes: seq<byte>, off: nat, n: nat)
    requires b * PAGE_SIZE + HEADER + |bytes| <= |m| && Payload(m, b, |bytes|) == bytes && off + n <= |bytes|
    ensures m[b * PAGE_SIZE + HEADER + off..b * PAGE_SIZE + HEADER + off + n] == bytes[off..off + n]
  {
    SliceOfSlice(m, b * PAGE_SIZE + HEADER, b * PAGE_SIZE + HEADER + |bytes|, off, off + n);
  }

  /**
   siv_open and then siv_close of its descriptor restore the free pages, the live blocks and the
   descriptors' copies, preload or not; so the bits of the bitmap and the three counters, which
   the invariant ties to them, are what they were.
   */
  lemma OpenCloseRestores(s0: Snap, t0: Files, c: Call, s1: Snap, t1: Files, s2: Snap, t2: Files)
    requires FileStep(s0, t0, c, s1, t1) && c.Open? && !Rejected(c.props)
    requires FileStep(s1, t1, Close(t0.numOpen), s2, t2)
    ensures s2.owners == s0.owners && t2.contents == t0.contents && t2.tar == t0.tar
  {
    hide NumPages, PayloadFits, ChangesOnly, Runs.HeadersWritten, Runs.TablesAligned, OwnsBlock;
    if c.preload {
      FreeUndoesMalloc(s0, s1, s2, t1.contents[t0.numOpen].value / PAGE_SIZE, c.props.size);
    }
  }

  lemma SameFreeSameState(usable: set<nat>, free: set<nat>, total: nat, f1: nat, u1: nat, f2: nat, u2: nat,
                          m1: seq<byte>, m2: seq<byte>, bm: Bitmap, i: nat)
    requires Counted(usable, free, total, f1, u1) && Counted(usable, free, total, f2, u2)
    requires bm.InMemory(m1) && bm.InMemory(m2) && Clear(m1, bm) == Clear(m2, bm) && i < bm.size * 8
    ensures f1 == f2 && u1 == u2 && Get(m1, bm, i) == Get(m2, bm, i)
  {
    assert i in Clear(m1, bm) <==> i in Clear(m2, bm);
  }
}

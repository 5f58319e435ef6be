/**
 libk/tar.c and the tar driver (drivers/filesys/tar.c) over the machine's memory: the archive
 is a boot module outside usable memory, the list of headers a vector in the heap.
 */
module Tar {
  import opened Bits
  import opened Options
  import opened Words
  import opened Bitmaps
  import opened PageTables
  import opened Machines
  import opened Pmm
  import opened Ownership
  import opened Heap
  import opened Vectors
  import opened Strings
  import opened TarFormat

  /** struct tar_contents: `hdrNum` is a u8, `headers` the address of an array of pointers. */
  datatype Contents = Contents(hdrNum: nat, headers: nat)

  // ------------------------------------------------------------------------ parse_size

  lemma AddMultipleU32(y: int, k: int)
    ensures (y + k * U32) % U32 == y % U32
  {
  }

  lemma AccumulateDigit(t: int, p: int, x: int, size: nat, count: nat)
    requires size == t % U32 && count == p % U32
    ensures (size + x * count) % U32 == (t + x * p) % U32 && count * 8 % U32 == p * 8 % U32
  {
    var q1, q2 := t / U32, p / U32;
    assert t == size + q1 * U32 && p == count + q2 * U32;
    assert x * p == x * count + x * q2 * U32;
    AddMultipleU32(size + x * count, q1 + x * q2);
    assert t + x * p == size + x * count + (q1 + x * q2) * U32;
    AddMultipleU32(count * 8, q2 * 8);
  }

  lemma SplitDigit(a: int, x: int, p: int, t: int)
    ensures (8 * a + x) * p + t == a * (8 * p) + (t + x * p)
  {
  }

  method ParseSize(ram: array<byte>, field: nat) returns (size: nat)
    requires field + SIZE_DIGITS <= ram.Length
    ensures size == Octal(ram[..][field..field + SIZE_DIGITS]) % U32
  {
    hide Octal, Pow8;
    ghost var f := ram[..][field..field + SIZE_DIGITS];
    ghost var t, p := 0, 1;
    size := 0;
    var count, j := 1, 11;
    assert f[..11] == f;
    while j > 0
      invariant 0 <= j <= 11 && size == t % U32 && count == p % U32
      invariant Octal(f) == Octal(f[..j]) * p + t
    {
      OctalStep(f[..j]);
      assert f[..j][..j - 1] == f[..j - 1];
      var x := DigitValue(ram[field + j - 1]);
      assert x == DigitValue(f[j - 1]);
      SplitDigit(Octal(f[..j - 1]), x, p, t);
      AccumulateDigit(t, p, x, size, count);
      size := (size + x * count) % U32;
      t, p := t + x * p, 8 * p;
      j, count := j - 1, count * 8 % U32;
    }
    OctalEmpty();
    assert f[..0] == [];
  }

  lemma OctalStep(s: seq<byte>)
    requires s != []
    ensures Octal(s) == 8 * Octal(s[..|s| - 1]) + DigitValue(s[|s| - 1])
  {
  }

  lemma OctalEmpty()
    ensures Octal([]) == 0
  {
  }

  // ------------------------------------------------------------------------- parse_tar

  /** Addresses lo .. hi - 1 are in memory and in no usable page: nobody allocates them. */
  ghost predicate Reserved(usable: set<nat>, length: nat, lo: nat, hi: nat) {
    hi <= length && forall a: nat | lo <= a < hi :: a / PAGE_SIZE !in usable
  }

  /** Every block of s is still there with its bytes, and so is everything outside usable memory. */
  ghost predicate Kept(s: Snap, s': Snap) {
    && s'.owners.forest == s.owners.forest && s'.owners.usable == s.owners.usable
    && s'.owners.bitmap == s.owners.bitmap && |s'.memory| == |s.memory|
    && (forall b | b in s.owners.blocks :: b in s'.owners.blocks && s'.owners.blocks[b] == s.owners.blocks[b])
    && (forall a: nat | a < |s.memory| && a / PAGE_SIZE !in s.owners.usable :: s'.memory[a] == s.memory[a])
    && (forall b, a: nat | b in s.owners.blocks && a < |s.memory| && a / PAGE_SIZE in s.owners.BlockPages(b) ::
          s'.memory[a] == s.memory[a])
  }

  lemma TookKeeps(s: Snap, s': Snap, b: nat, size: nat)
    requires s.owners.Inv() && s.owners.free <= s.owners.usable && s.owners.bitmap <= s.owners.usable
    requires Does(s, Took(b, size), s')
    ensures Kept(s, s') && b !in s.owners.blocks && b in s'.owners.blocks && s'.owners.blocks[b] == size
  {
    hide NumPages;
    forall d, a: nat | d in s.owners.blocks && a < |s.memory| && a / PAGE_SIZE in s.owners.BlockPages(d)
      ensures s'.memory[a] == s.memory[a]
    {
      BlockFreeable(s.owners, d);
    }
  }

  lemma ChangeKeeps(s: Snap, s1: Snap, s2: Snap, b: nat, c: nat)
    requires Kept(s, s1) && b !in s.owners.blocks && OneBlockChange(s1, s2, b, c)
    ensures Kept(s, s2) && c !in s.owners.blocks
  {
    hide NumPages;
    forall d | d in s.owners.blocks
      ensures d in s2.owners.blocks && s2.owners.blocks[d] == s.owners.blocks[d] && d != c
    {
      assert d in s1.owners.blocks - {b};
      assert d in s2.owners.blocks - {c} && s2.owners.blocks[d] == s1.owners.blocks[d];
    }
    forall d, a: nat | d in s.owners.blocks && a < |s.memory| && a / PAGE_SIZE in s.owners.BlockPages(d)
      ensures s2.memory[a] == s.memory[a]
    {
      assert s1.owners.BlockPages(d) == s.owners.BlockPages(d);
    }
  }

  /** The vector may have to grow this far: with the literal page search, only to one page. */
  ghost predicate RoomFor(unit: nat, count: nat) { unit == 1 || count <= 252 }

  /** The capacities the vector has while the literal page search must stay within one page. */
  ghost predicate Capacity(unit: nat, len: nat, cap: nat) {
    unit == 1 || (cap == 500 && len <= 62) || cap == 2016
  }

  lemma GrowthAllowed(unit: nat, count: nat, len: nat, cap: nat)
    requires unit >= 1 && RoomFor(unit, count) && len < count && count * 32 < TWO64 && Capacity(unit, len, cap)
    ensures cap < (len + 1) * ELEM ==> (len + 1) * ELEM * 4 < TWO64 && Allocatable(unit, (len + 1) * ELEM * 4)
    ensures Capacity(unit, len + 1, if cap < (len + 1) * ELEM then (len + 1) * ELEM * 4 else cap)
  {
    hide PageToBit;
    if unit == 1 {
      PageToBitValues(NumPages((len + 1) * ELEM * 4));
    } else if cap < (len + 1) * ELEM {
      OnePageAllocatable(unit, 2016);
    }
  }

  /** The chain that starts at offset o, split at its first header. */
  lemma HeadersUnfold(m: seq<byte>, base: nat, fileSize: nat, o: nat, limit: nat)
    requires limit <= |m| && Headers(m, base, fileSize, o, limit).Some?
    ensures base + o < limit
    ensures m[base + o] == 0 || o >= fileSize ==> Headers(m, base, fileSize, o, limit).value == []
    ensures !(m[base + o] == 0 || o >= fileSize) ==>
      && base + o + BLOCK <= limit
      && var next := o + Stride(SizeAt(m, base + o));
         && Headers(m, base, fileSize, next, limit).Some?
         && Headers(m, base, fileSize, o, limit).value == [base + o] + Headers(m, base, fileSize, next, limit).value
  {
  }

  /** Reserved bytes survive everything that keeps the heap. */
  lemma ReservedKept(s: Snap, s': Snap, lo: nat, hi: nat)
    requires Kept(s, s') && Reserved(s.owners.usable, |s.memory|, lo, hi)
    ensures |s'.memory| == |s.memory| && forall a | lo <= a < hi :: s'.memory[a] == s.memory[a]
  {
  }

  /** One round of parse_tar: push the header, read its size, go to the next one. */
  method ParseStep(k: Machine, v: Vector, header: nat, ghost s0: Snap, ghost count: nat)
    returns (ok: bool, next: nat)
    requires SystemInv(k) && VectorOk(k.blocks, v) && header + BLOCK <= k.ram.Length && header < TWO64
    requires RoomFor(k.unit, count) && v.len < count && count * 32 < TWO64 && Capacity(k.unit, v.len, v.cap)
    requires Kept(s0, SnapOf(k)) && v.data / PAGE_SIZE !in s0.owners.blocks
    modifies k`freeMem, k`usedMem, k`blocks, k.ram, v
    ensures SystemInv(k) && old(v.data + ELEM * v.len) <= k.ram.Length
    ensures !ok ==> v.len == old(v.len) + 1 && NoRoom(k, v.len * ELEM * 4 / 4096 + 1)
    ensures ok ==> VectorOk(k.blocks, v) && v.len == old(v.len) + 1 && v.data + ELEM * v.len <= k.ram.Length
    ensures ok ==> Capacity(k.unit, v.len, v.cap)
    ensures ok ==> Elements(k.ram[..], v.data, v.len) == Elements(old(k.ram[..]), old(v.data), old(v.len)) + [header]
    ensures ok ==> Kept(s0, SnapOf(k)) && v.data / PAGE_SIZE !in s0.owners.blocks
    ensures ok ==> next == header + Stride(SizeAt(old(k.ram[..]), header))
  {
    hide Clear, Get, Counted, Owners.Inv, Stored, WellFormed, NumPages, Elements, OneBlockChange, Kept, UsualCapacity,
         Allocatable, SystemInv, Capacity, Octal, RoomFor, NoRoom;
    SystemFacts(k);
    ghost var s, data0 := SnapOf(k), v.data;
    var size := ParseSize(k.ram, header + SIZE_FIELD);
    GrowthAllowed(k.unit, count, v.len, v.cap);
    ok := VectorPush(k, v, header);
    next := header + (size / 512 + 1) * 512;
    if size % 512 != 0 {
      next := next + 512;
    }
    if ok {
      SystemFacts(k);
      ChangeKeeps(s0, s, SnapOf(k), data0 / PAGE_SIZE, v.data / PAGE_SIZE);
    }
  }

  lemma TakeNext(hs: seq<nat>, i: nat, h: nat, rest: seq<nat>)
    requires i <= |hs| && hs[i..] == [h] + rest
    ensures i < |hs| && hs[i] == h && hs[i + 1..] == rest && hs[..i + 1] == hs[..i] + [h]
  {
    assert hs[i..][0] == hs[i] && hs[i..][1..] == hs[i + 1..];
  }

  /** vector_init, as parse_tar needs it. */
  method ParseStart(k: Machine, v: Vector) returns (ok: bool)
    requires SystemInv(k)
    modifies k`freeMem, k`usedMem, k`blocks, k.ram, v
    ensures SystemInv(k)
    ensures ok <==> !old(NoRoom(k, 1))
    ensures !ok ==> v.len == 0 && NoRoom(k, 1)
    ensures ok ==> VectorOk(k.blocks, v) && v.len == 0 && v.data <= k.ram.Length && Capacity(k.unit, 0, v.cap)
    ensures ok ==> Elements(k.ram[..], v.data, 0) == []
    ensures ok ==> Kept(old(SnapOf(k)), SnapOf(k)) && v.data / PAGE_SIZE !in old(k.blocks)
  {
    hide Clear, Get, Counted, Owners.Inv, Stored, WellFormed, NumPages, Kept, SystemInv, Does, NoRoom;
    SystemFacts(k);
    ghost var s0 := SnapOf(k);
    ok := VectorInit(k, v);
    if ok {
      SystemFacts(k);
      TookKeeps(s0, SnapOf(k), v.data / PAGE_SIZE, 500);
      VectorRoom(k, v.data, v.cap);
      NoElements(k.ram[..], v.data);
      InitialCapacity(k.unit);
    }
  }

  /** What one round of parse_tar finds at the cursor, when i headers are already in the vector. */
  lemma NextHeader(s0: Snap, s: Snap, header: nat, fileSize: nat, limit: nat, hs: seq<nat>, i: nat, cursor: nat)
    requires Kept(s0, s) && Reserved(s0.owners.usable, |s0.memory|, header, limit)
    requires i <= |hs| && header <= cursor
    requires limit <= |s0.memory| && Headers(s0.memory, header, fileSize, cursor - header, limit) == Some(hs[i..])
    ensures cursor < |s.memory| == |s0.memory|
    ensures s.memory[cursor] == 0 || cursor - header >= fileSize ==> i == |hs| && hs[..i] == hs
    ensures !(s.memory[cursor] == 0 || cursor - header >= fileSize) ==>
      && i < |hs| && cursor + BLOCK <= |s.memory| && hs[..i + 1] == hs[..i] + [cursor]
      && Headers(s0.memory, header, fileSize, cursor + Stride(SizeAt(s.memory, cursor)) - header, limit)
           == Some(hs[i + 1..])
  {
    hide Headers, Kept, SizeAt, Stride;
    HeadersUnfold(s0.memory, header, fileSize, cursor - header, limit);
    ReservedKept(s0, s, header, limit);
    assert s.memory[cursor] == s0.memory[cursor];
    if !(s.memory[cursor] == 0 || cursor - header >= fileSize) {
      SizeFrame(s0.memory, s.memory, cursor);
      var next := cursor - header + Stride(SizeAt(s0.memory, cursor));
      TakeNext(hs, i, cursor, Headers(s0.memory, header, fileSize, next, limit).value);
    }
  }

  /**
   parse_tar: the vector holds exactly the chain of headers, and the reported count is their
   number modulo 256. Blocks, tables and the archive itself are left alone.
   */
  method ParseTar(k: Machine, v: Vector, header: nat, fileSize: nat, ghost limit: nat) returns (r: Option<Contents>)
    requires SystemInv(k) && Reserved(k.usable, k.ram.Length, header, limit)
    requires Headers(k.ram[..], header, fileSize, 0, limit).Some?
    requires RoomFor(k.unit, |Headers(k.ram[..], header, fileSize, 0, limit).value|)
    modifies k`freeMem, k`usedMem, k`blocks, k.ram, v
    ensures SystemInv(k)
    ensures r.None? ==>
      && v.len <= |Headers(old(k.ram[..]), header, fileSize, 0, limit).value|
      && NoRoom(k, v.len * ELEM * 4 / 4096 + 1)
    ensures r.Some? ==>
      var hs := Headers(old(k.ram[..]), header, fileSize, 0, limit).value;
      && VectorOk(k.blocks, v) && v.data + ELEM * v.len <= k.ram.Length
      && Elements(k.ram[..], v.data, v.len) == hs
      && r.value == Contents(|hs| % 256, v.data)
    ensures r.Some? ==> Kept(old(SnapOf(k)), SnapOf(k)) && v.data / PAGE_SIZE !in old(k.blocks)
  {
    hide Clear, Get, Counted, Owners.Inv, Stored, WellFormed, NumPages, Elements, Kept, UsualCapacity, SystemInv,
         Capacity, RoomFor, Headers, Does, Octal, SizeAt, Stride, Machine.BitmapInv, Machine.BitmapPages,
         Machine.Free, VectorOk, IsBlock, NoRoom;
    SystemFacts(k);
    ghost var s0, m0 := SnapOf(k), k.ram[..];
    ghost var hs := Headers(m0, header, fileSize, 0, limit).value;
    HeadersCount(m0, header, fileSize, 0, limit);
    var started := ParseStart(k, v);
    if !started {
      return None;
    }
    SystemFacts(k);
    var i, cursor := 0, header;
    while true
      invariant SystemInv(k) && VectorOk(k.blocks, v) && v.data + ELEM * v.len <= k.ram.Length
      invariant k.pageBmp.InMemory(k.ram[..]) && Kept(s0, SnapOf(k)) && v.data / PAGE_SIZE !in s0.owners.blocks
      invariant i == v.len <= |hs| && header <= cursor && Capacity(k.unit, v.len, v.cap)
      invariant Headers(m0, header, fileSize, cursor - header, limit) == Some(hs[i..])
      invariant Elements(k.ram[..], v.data, v.len) == hs[..i]
      decreases |hs| - i
    {
      NextHeader(s0, SnapOf(k), header, fileSize, limit, hs, i, cursor);
      if k.ram[cursor] == 0 || cursor - header >= fileSize {
        return Some(Contents(i % 256, v.data));
      }
      var ok, next := ParseStep(k, v, cursor, s0, |hs|);
      if !ok {
        return None;
      }
      SystemFacts(k);
      i, cursor := i + 1, next;
    }
  }

  lemma NoElements(m: seq<byte>, a: nat)
    requires a <= |m|
    ensures Elements(m, a, 0) == []
  {
  }

  lemma InitialCapacity(unit: nat)
    ensures Capacity(unit, 0, 500)
  {
  }

  // ------------------------------------------------------------------------- find_file

  /** The contents record describes the headers hs. */
  ghost predicate Indexed(m: seq<byte>, c: Contents, hs: seq<nat>) {
    c.headers + ELEM * c.hdrNum <= |m| && Elements(m, c.headers, c.hdrNum) == hs
  }

  ghost predicate Searchable(m: seq<byte>, hs: seq<nat>, name: seq<byte>) {
    NoZero(name) && AllWithin(hs, |name|, |m|)
  }

  /** find_file: the first of the counted headers with this name, or NULL. */
  method FindFile(ram: array<byte>, findin: Contents, name: seq<byte>, ghost hs: seq<nat>) returns (r: Option<nat>)
    requires Indexed(ram[..], findin, hs) && Searchable(ram[..], hs, name)
    ensures r == FirstNamed(ram[..], hs, name)
  {
    hide Word, NoZero, NameIs, Elements, FirstNamed, AllWithin;
    var i := 0;
    assert hs[0..] == hs;
    while i < findin.hdrNum
      invariant 0 <= i <= |hs| && AllWithin(hs[i..], |name|, ram.Length)
      invariant FirstNamed(ram[..], hs, name) == FirstNamed(ram[..], hs[i..], name)
    {
      SearchStep(ram[..], findin, hs, name, i);
      var hdr := Load64(ram, findin.headers + 8 * i);
      var same := HasName(ram, hdr, name);
      if same {
        return Some(hdr);
      }
      i := i + 1;
    }
    SearchEnd(ram[..], hs[i..], name);
    return None;
  }

  /** `strcmp((char *)hdr->filename, name) == 0` */
  method HasName(ram: array<byte>, hdr: nat, name: seq<byte>) returns (same: bool)
    requires hdr + |name| < ram.Length && NoZero(name)
    ensures same == NameIs(ram[..], hdr, name)
  {
    var c := Strcmp(ram, hdr, name);
    assert ram[..][hdr..hdr + |name|] == ram[hdr..hdr + |name|];
    return c == 0;
  }

  lemma SearchStep(m: seq<byte>, c: Contents, hs: seq<nat>, name: seq<byte>, i: nat)
    requires Indexed(m, c, hs) && i < |hs| && AllWithin(hs[i..], |name|, |m|)
    ensures hs[i] == Word(m, c.headers + ELEM * i) && hs[i] + |name| < |m|
    ensures AllWithin(hs[i + 1..], |name|, |m|)
    ensures FirstNamed(m, hs[i..], name)
         == if NameIs(m, hs[i], name) then Some(hs[i]) else FirstNamed(m, hs[i + 1..], name)
  {
    hide Word, NameIs;
    assert hs[i] == Word(m, ElemAddr(c.headers, i));
    assert hs[i..][0] == hs[i] && hs[i..][1..] == hs[i + 1..];
  }

  lemma SearchEnd(m: seq<byte>, hs: seq<nat>, name: seq<byte>)
    requires AllWithin(hs, |name|, |m|)
    ensures hs == [] ==> FirstNamed(m, hs, name) == None
  {
  }

  // ---------------------------------------------------------------------- the tar driver

  /** file_t, without the fields the tar driver leaves at zero. `None` is a null path. */
  datatype File = File(driveId: nat, fullPath: Option<seq<byte>>, size: nat, isDir: bool)

  const NO_FILE := File(0, None, 0, false)

  function TypeAt(m: seq<byte>, h: nat): byte
    requires h + TYPE_FIELD < |m|
  {
    m[h + TYPE_FIELD]
  }

  /** What tar_get_props reports for the file a search finds. */
  function Props(m: seq<byte>, driveId: nat, path: seq<byte>, found: Option<nat>): File
    requires found.Some? ==> found.value + BLOCK <= |m|
  {
    if found.None? then NO_FILE
    else File(driveId, Some(path), SizeAt(m, found.value), TypeAt(m, found.value) == 53)
  }

  /** The fields of struct tar_header, in order. */
  datatype Header = Header(filename: seq<byte>, mode: seq<byte>, uid: seq<byte>, gid: seq<byte>, size: seq<byte>,
                           mtime: seq<byte>, chksum: seq<byte>, typeflag: byte)
  {
    predicate Valid() {
      |filename| == 100 && |mode| == |uid| == |gid| == |chksum| == 8 && |size| == |mtime| == 12
    }

    function Bytes(): seq<byte> { filename + mode + uid + gid + size + mtime + chksum + [typeflag] }
  }

  /** The offsets used are those of the fields: the size is read from `size`, the kind from `typeflag`. */
  lemma FieldsAreRead(m: seq<byte>, a: nat, t: Header, driveId: nat, path: seq<byte>)
    requires t.Valid() && a + BLOCK <= |m| && m[a..a + 157] == t.Bytes()
    ensures Props(m, driveId, path, Some(a))
         == File(driveId, Some(path), Octal(t.size[..11]) % 0x1_0000_0000, t.typeflag == '5' as int)
    ensures forall name | |name| < 100 && NoZero(name) :: NameIs(m, a, name) <==> t.filename[..|name| + 1] == name + [0]
  {
    hide Octal, NoZero;
    SliceOfSlice(m, a, a + 157, 124, 135);
    assert t.Bytes()[124..135] == t.size[..11];
    assert m[a + 156] == m[a..a + 157][156] == t.typeflag;
    forall name | |name| < 100 && NoZero(name)
      ensures NameIs(m, a, name) <==> t.filename[..|name| + 1] == name + [0]
    {
      SliceOfSlice(m, a, a + 157, 0, |name| + 1);
      assert t.Bytes()[..|name| + 1] == t.filename[..|name| + 1];
      assert m[a..a + |name| + 1] == t.filename[..|name| + 1];
      NameAndZero(m, a, name);
    }
  }

  lemma NameAndZero(m: seq<byte>, a: nat, name: seq<byte>)
    requires a + |name| < |m|
    ensures NameIs(m, a, name) <==> m[a..a + |name| + 1] == name + [0]
  {
    var field := m[a..a + |name| + 1];
    assert field == m[a..a + |name|] + [m[a + |name|]];
    if field == name + [0] {
      assert field[..|name|] == name && field[|name|] == 0;
    }
  }

  /** A size field that reads 00000001750 in ASCII stands for 1000 bytes, and the next header is 1536 bytes on. */
  lemma ThousandBytes()
    ensures Octal([48, 48, 48, 48, 48, 48, 48, 49, 55, 53, 48]) == 1000 && Stride(1000) == 1536
  {
    var s: seq<byte> := [48, 48, 48, 48, 48, 48, 48, 49, 55, 53, 48];
    forall k | 0 <= k < 11 ensures Octal(s[..k + 1]) == 8 * Octal(s[..k]) + s[k] - 48 {
      assert s[..k + 1][..k] == s[..k];
    }
    assert Octal(s[..0]) == 0 && s[..11] == s;
    hide Octal;
    assert s[0] == 48 && Octal(s[..0 + 1]) == 0;
    assert s[1] == 48 && Octal(s[..1 + 1]) == 0;
    assert s[2] == 48 && Octal(s[..2 + 1]) == 0;
    assert s[3] == 48 && Octal(s[..3 + 1]) == 0;
    assert s[4] == 48 && Octal(s[..4 + 1]) == 0;
    assert s[5] == 48 && Octal(s[..5 + 1]) == 0;
    assert s[6] == 48 && Octal(s[..6 + 1]) == 0;
    assert s[7] == 49 && Octal(s[..7 + 1]) == 1;
    assert s[8] == 55 && Octal(s[..8 + 1]) == 15;
    assert s[9] == 53 && Octal(s[..9 + 1]) == 125;
    assert s[10] == 48 && Octal(s[..10 + 1]) == 1000;
  }

  method TarGetProps(ram: array<byte>, contents: Contents, driveId: nat, path: seq<byte>, ghost hs: seq<nat>)
    returns (f: File)
    requires Indexed(ram[..], contents, hs) && Searchable(ram[..], hs, path)
    requires AllWithin(hs, BLOCK - 1, ram.Length)
    ensures FirstNamed(ram[..], hs, path).Some? ==> FirstNamed(ram[..], hs, path).value + BLOCK <= ram.Length
    ensures f == Props(ram[..], driveId, path, FirstNamed(ram[..], hs, path))
  {
    hide Octal, Word, FirstNamed, NoZero, Elements;
    FirstNamedIn(ram[..], hs, path);
    var header := FindFile(ram, contents, path, hs);
    if header.None? {
      return NO_FILE;
    }
    var size := ParseSize(ram, header.value + SIZE_FIELD);
    return File(driveId, Some(path), size, ram[header.value + TYPE_FIELD] == 53);
  }

  lemma {:induction false} FirstNamedIn(m: seq<byte>, hs: seq<nat>, name: seq<byte>)
    requires AllWithin(hs, |name|, |m|)
    ensures FirstNamed(m, hs, name).Some? ==>
      exists i | 0 <= i < |hs| :: hs[i] == FirstNamed(m, hs, name).value
  {
    hide NameIs;
    if hs != [] {
      FirstNamedIn(m, hs[1..], name);
      var r := FirstNamed(m, hs[1..], name);
      if r.Some? {
        var i :| 0 <= i < |hs[1..]| && hs[1..][i] == r.value;
        assert hs[i + 1] == r.value;
      } else {
        assert FirstNamed(m, hs, name).Some? ==> hs[0] == FirstNamed(m, hs, name).value;
      }
    }
  }

  /** The number of bytes tar_read and tar_write copy: the offset plays no part in it. */
  function CopyCount(fsize: nat, size: nat): (n: nat)
    ensures n <= fsize && n <= size && (n == fsize || n == size)
  {
    if size > fsize then fsize else size
  }

  /** The copied stretch stays inside the file exactly when offset and count fit together. */
  lemma CopyInsideIff(fsize: nat, offset: nat, size: nat)
    ensures offset + CopyCount(fsize, size) <= fsize <==> (offset + size <= fsize || offset == 0)
  {
  }

  /** The file that a path names, and where a read or write at an offset goes. */
  ghost predicate Locates(m: seq<byte>, hs: seq<nat>, path: seq<byte>, h: nat) {
    Searchable(m, hs, path) && FirstNamed(m, hs, path) == Some(h) && h + BLOCK <= |m|
  }

  /** tar_read into a buffer that does not overlap the file from below. */
  method TarRead(ram: array<byte>, contents: Contents, path: seq<byte>, offset: nat, buffer: nat, size: nat,
                 ghost hs: seq<nat>, ghost h: nat)
    requires Indexed(ram[..], contents, hs) && Locates(ram[..], hs, path, h)
    requires var n := CopyCount(SizeAt(ram[..], h), size);
      var from := h + BLOCK + offset;
      from + n <= ram.Length && buffer + n <= ram.Length && (buffer <= from || from + n <= buffer)
    modifies ram
    ensures var n := CopyCount(SizeAt(old(ram[..]), h), size);
      StoredAt(old(ram[..]), ram[..], buffer, old(ram[..])[h + BLOCK + offset..h + BLOCK + offset + n])
  {
    hide Octal, Word, Elements, FirstNamed, NoZero, AllWithin, StoredAt, AgreeOutside;
    ghost var m := ram[..];
    var thdr := FindFile(ram, contents, path, hs);
    var fsize := ParseSize(ram, thdr.value + SIZE_FIELD);
    var n := if size > fsize then fsize else size;
    Memcpy(ram, buffer, thdr.value + 512 + offset, n);
    assert ram[..][buffer..buffer + n] == m[h + BLOCK + offset..h + BLOCK + offset + n];
    CopiedIsStored(m, ram[..], buffer, h + BLOCK + offset, n);
  }

  lemma CopiedIsStored(m: seq<byte>, m': seq<byte>, to: nat, from: nat, n: nat)
    requires from + n <= |m| && to + n <= |m| && AgreeOutside(m, m', to, to + n, 0, 0)
    requires m'[to..to + n] == m[from..from + n]
    ensures StoredAt(m, m', to, m[from..from + n])
  {
  }

  /** tar_write, from a buffer that does not overlap the file from above. */
  method TarWrite(ram: array<byte>, contents: Contents, path: seq<byte>, offset: nat, buffer: nat, size: nat,
                  ghost hs: seq<nat>, ghost h: nat)
    requires Indexed(ram[..], contents, hs) && Locates(ram[..], hs, path, h)
    requires var n := CopyCount(SizeAt(ram[..], h), size);
      var to := h + BLOCK + offset;
      to + n <= ram.Length && buffer + n <= ram.Length && (to <= buffer || buffer + n <= to)
    modifies ram
    ensures var n := CopyCount(SizeAt(old(ram[..]), h), size);
      StoredAt(old(ram[..]), ram[..], h + BLOCK + offset, old(ram[..])[buffer..buffer + n])
  {
    hide Octal, Word, Elements, FirstNamed, NoZero, AllWithin, StoredAt, AgreeOutside;
    ghost var m := ram[..];
    var thdr := FindFile(ram, contents, path, hs);
    var fsize := ParseSize(ram, thdr.value + SIZE_FIELD);
    var n := if size > fsize then fsize else size;
    Memcpy(ram, thdr.value + 512 + offset, buffer, n);
    assert ram[..][h + BLOCK + offset..h + BLOCK + offset + n] == m[buffer..buffer + n];
    CopiedIsStored(m, ram[..], h + BLOCK + offset, buffer, n);
  }

  // -------------------------------------------------------------- what the archive means

  /** Bytes of a member, where they are in memory. */
  lemma MemberBytes(m: seq<byte>, a: nat, w: Member, off: nat, n: nat)
    requires MemberAt(m, a, w) && off + n <= |w.data|
    ensures a + BLOCK + off + n <= |m| && m[a + BLOCK + off..a + BLOCK + off + n] == w.data[off..off + n]
    ensures SizeAt(m, a) == |w.data| && CopyCount(SizeAt(m, a), n) == n
  {
    hide Octal, OctalDigits;
    MemberSize(m, a, w);
    SliceOfSlice(m, a + BLOCK, a + BLOCK + |w.data|, off, off + n);
  }

  /**
   An in-range write to member i, then an in-range read of the same stretch, gives the written
   bytes; the archive is the old one with that member patched, so the header list and the data
   of every other member are the same.
   */
  lemma WriteThenRead(m: seq<byte>, m': seq<byte>, base: nat, fileSize: nat, limit: nat, ws: seq<Member>,
                      i: nat, off: nat, bytes: seq<byte>)
    requires ArchiveAt(m, base, fileSize, 0, limit, ws) && i < |ws| && off + |bytes| <= |ws[i].data|
    requires StoredAt(m, m', Offsets(base, 0, ws)[i] + BLOCK + off, bytes)
    ensures var a := Offsets(base, 0, ws)[i];
      var ws' := ws[i := ws[i].(data := Patched(ws[i].data, off, bytes))];
      && ArchiveAt(m', base, fileSize, 0, limit, ws') && limit <= |m'|
      && Headers(m', base, fileSize, 0, limit) == Headers(m, base, fileSize, 0, limit)
      && a + BLOCK + off + |bytes| <= |m'| && m'[a + BLOCK + off..a + BLOCK + off + |bytes|] == bytes
  {
    hide MemberAt, Stride, StoredAt;
    var ws' := ws[i := ws[i].(data := Patched(ws[i].data, off, bytes))];
    WritePatchesOneMember(m, m', base, fileSize, 0, limit, ws, i, off, bytes);
    ParsingFindsTheMembers(m, base, fileSize, 0, limit, ws);
    ParsingFindsTheMembers(m', base, fileSize, 0, limit, ws');
    StoredReads(m, m', Offsets(base, 0, ws)[i] + BLOCK + off, bytes);
  }

  lemma StoredReads(m: seq<byte>, m': seq<byte>, a: nat, bytes: seq<byte>)
    requires StoredAt(m, m', a, bytes)
    ensures a + |bytes| <= |m'| && m'[a..a + |bytes|] == bytes
  {
  }
}

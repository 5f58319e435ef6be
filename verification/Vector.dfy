/**
 The growable vector of libk/vector.h, holding 64-bit pointers in a heap block. The capacity
 counts bytes; growing goes through realloc.
 */
module Vectors {
  import opened Bits
  import opened Words
  import opened Bitmaps
  import opened PageTables
  import opened Machines
  import opened Pmm
  import opened Ownership
  import opened Heap

  const ELEM: nat := 8  // sizeof a pointer

  class Vector {
    var len: nat
    var cap: nat
    var data: nat  // address of the payload

    constructor ()
      ensures len == 0 && cap == 0 && data == 0
    {
      len, cap, data := 0, 0, 0;
    }
  }

  /** The capacities a vector goes through: the initial one, and multiples of 32. */
  predicate UsualCapacity(cap: nat) { cap == 500 || cap % 32 == 0 }

  lemma UsualCapacityFits(cap: nat)
    requires UsualCapacity(cap)
    ensures PayloadFits(cap)
  {
    PayloadFitsIff(cap);
  }

  /** The vector's data pointer is a live block of its capacity, with room for its elements. */
  ghost predicate VectorOk(blocks: map<nat, nat>, v: Vector)
    reads v
  {
    IsBlock(blocks, v.data) && blocks[v.data / PAGE_SIZE] == v.cap && ELEM * v.len <= v.cap && UsualCapacity(v.cap)
  }

  /** The first n words from address a on. */
  ghost function Elements(m: seq<byte>, a: nat, n: nat): (s: seq<nat>)
    requires a + ELEM * n <= |m|
    ensures |s| == n && forall i | 0 <= i < n :: s[i] == Word(m, ElemAddr(a, i))
  {
    if n == 0 then [] else Elements(m, a, n - 1) + [Word(m, a + ELEM * (n - 1))]
  }

  function ElemAddr(a: nat, i: nat): nat { a + ELEM * i }

  lemma {:induction false} SameElements(m: seq<byte>, m': seq<byte>, a: nat, b: nat, n: nat)
    requires a + ELEM * n <= |m| && b + ELEM * n <= |m'| && m[a..a + ELEM * n] == m'[b..b + ELEM * n]
    ensures Elements(m, a, n) == Elements(m', b, n)
  {
    hide Word, LittleEndian;
    if n > 0 {
      var k := ELEM * (n - 1);
      SliceOfSlice(m, a, a + ELEM * n, 0, k);
      SliceOfSlice(m', b, b + ELEM * n, 0, k);
      SliceOfSlice(m, a, a + ELEM * n, k, ELEM * n);
      SliceOfSlice(m', b, b + ELEM * n, k, ELEM * n);
      SameElements(m, m', a, b, n - 1);
      WordOfSlice(m, m', a + k, b + k);
    }
  }

  lemma WordOfSlice(m: seq<byte>, m': seq<byte>, a: nat, b: nat)
    requires a + 8 <= |m| && b + 8 <= |m'| && m[a..a + 8] == m'[b..b + 8]
    ensures Word(m, a) == Word(m', b)
  {
  }

  /** Storing the next element appends it. */
  lemma AppendElement(m: seq<byte>, a: nat, n: nat, w: nat)
    requires a + ELEM * (n + 1) <= |m| && w < TWO64
    ensures Elements(WithWord(m, a + ELEM * n, w), a, n + 1) == Elements(m, a, n) + [w]
  {
    hide Word, LittleEndian;
    var m' := WithWord(m, a + ELEM * n, w);
    assert m'[a..a + ELEM * n] == m[a..a + ELEM * n];
    SameElements(m, m', a, a, n);
    WordAfterStore(m, a + ELEM * n, w, a + ELEM * n);
  }

  /**
   A change of the heap that concerns one block only, which may move from b to c: everything
   in the other blocks, and everything outside usable memory, is as it was.
   */
  ghost predicate OneBlockChange(s: Snap, s': Snap, b: nat, c: nat) {
    && s'.owners.forest == s.owners.forest && s'.owners.usable == s.owners.usable
    && s'.owners.bitmap == s.owners.bitmap
    && b in s.owners.blocks && c in s'.owners.blocks && c !in s.owners.blocks - {b}
    && s'.owners.blocks - {c} == s.owners.blocks - {b}
    && |s'.memory| == |s.memory|
    && (forall a: nat | a < |s.memory| && a / PAGE_SIZE !in s.owners.usable :: s'.memory[a] == s.memory[a])
    && (forall d, a: nat | d in s.owners.blocks && d != b && a < |s.memory|
                           && a / PAGE_SIZE in s.owners.BlockPages(d) ::
          s'.memory[a] == s.memory[a])
  }

  lemma OneBlockTransitive(s: Snap, s1: Snap, s2: Snap, b: nat, c: nat, d: nat)
    requires OneBlockChange(s, s1, b, c) && OneBlockChange(s1, s2, c, d)
    ensures OneBlockChange(s, s2, b, d)
  {
    hide NumPages;
    assert s2.owners.blocks - {d} == s.owners.blocks - {b};
    forall e, a: nat | e in s.owners.blocks && e != b && a < |s.memory| && a / PAGE_SIZE in s.owners.BlockPages(e)
      ensures s2.memory[a] == s.memory[a]
    {
      assert e in s.owners.blocks - {b};
      assert e in s1.owners.blocks - {c} && s1.owners.blocks[e] == s.owners.blocks[e];
      assert s1.owners.BlockPages(e) == s.owners.BlockPages(e);
    }
  }

  lemma MoveIsOneBlock(s: Snap, s': Snap, b: nat, c: nat, size: nat, kept: nat)
    requires s.owners.Inv() && s.owners.free <= s.owners.usable && s.owners.bitmap <= s.owners.usable
    requires Does(s, Moved(b, c, size, kept), s')
    ensures OneBlockChange(s, s', b, c)
  {
    hide NumPages, Payload;
    BlockFreeable(s.owners, b);
    assert s'.owners.blocks - {c} == s.owners.blocks - {b};
    forall d, a: nat | d in s.owners.blocks && d != b && a < |s.memory| && a / PAGE_SIZE in s.owners.BlockPages(d)
      ensures s'.memory[a] == s.memory[a]
    {
      BlockFreeable(s.owners, d);
      BlocksApart(s.owners, b, d);
    }
  }

  lemma WriteIsOneBlock(s: Snap, s': Snap, b: nat)
    requires s.owners.Inv() && Does(s, Wrote(b), s')
    ensures OneBlockChange(s, s', b, b)
  {
    hide NumPages;
    BlockFreeable(s.owners, b);
    forall d, a: nat | d in s.owners.blocks && d != b && a < |s.memory| && a / PAGE_SIZE in s.owners.BlockPages(d)
      ensures s'.memory[a] == s.memory[a]
    {
      BlockFreeable(s.owners, d);
      BlocksApart(s.owners, b, d);
    }
  }

  /** A client's store of a word into its block. */
  method StoreInBlock(k: Machine, ghost b: nat, a: nat, w: nat)
    requires SystemInv(k) && b in k.blocks && w < TWO64
    requires b * PAGE_SIZE + HEADER <= a && a + 8 <= (b + NumPages(k.blocks[b])) * PAGE_SIZE
    modifies k.ram
    ensures SystemInv(k) && Does(old(SnapOf(k)), Wrote(b), SnapOf(k))
    ensures a + 8 <= k.ram.Length && k.ram[..] == WithWord(old(k.ram[..]), a, w)
  {
    hide Clear, Get, Counted, Owners.Inv, Stored, WellFormed, AgreeOutside, WithWord, NumPages, ChangesOnly;
    SystemFacts(k);
    ghost var s := SnapOf(k);
    BlockFreeable(s.owners, b);
    NumPagesPositive(k.blocks[b]);
    RunBounds(k, b, NumPages(k.blocks[b]));
    Store64(k.ram, a, w);
    WordRange(s.memory, a, w);
    PayloadWrite(k, s.owners, s.memory, b, a, a + 8);
    RangePages(s.memory, k.ram[..], a, a + 8, b, NumPages(k.blocks[b]));
  }

  lemma WordRange(m: seq<byte>, a: nat, w: nat)
    requires a + 8 <= |m|
    ensures AgreeOutside(m, WithWord(m, a, w), a, a + 8, 0, 0)
  {
  }

  method VectorInit(k: Machine, v: Vector) returns (ok: bool)
    requires SystemInv(k)
    modifies k`freeMem, k`usedMem, k`blocks, k.ram, v
    ensures SystemInv(k)
    ensures ok <==> !old(NoRoom(k, 1))
    ensures !ok ==> v.len == 0 && NoRoom(k, 1)
    ensures ok ==> VectorOk(k.blocks, v) && v.len == 0 && v.cap == 500
    ensures ok ==> Does(old(SnapOf(k)), Took(v.data / PAGE_SIZE, 500), SnapOf(k))
  {
    hide Clear, Get, Counted, Owners.Inv, Stored, WellFormed, AgreeOutside, ChangesOnly, PageToBit, FirstFit;
    v.len := 0;
    v.cap := 500;
    OnePageAllocatable(k.unit, 500);
    var data := Malloc(k, v.cap);
    if data.None? {
      return false;
    }
    v.data := data.value;
    return true;
  }

  lemma OnePageAllocatable(unit: nat, size: nat)
    requires unit >= 1 && size < PAGE_SIZE
    ensures Allocatable(unit, size)
  {
  }

  lemma VectorRoom(k: Machine, data: nat, cap: nat)
    requires SystemInv(k) && IsBlock(k.blocks, data) && k.blocks[data / PAGE_SIZE] == cap && UsualCapacity(cap)
    ensures data == data / PAGE_SIZE * PAGE_SIZE + HEADER
    ensures data + cap <= (data / PAGE_SIZE + NumPages(cap)) * PAGE_SIZE && data + cap <= k.ram.Length
  {
    hide Clear, Get, Counted, Owners.Inv, Stored, WellFormed, NumPages;
    SystemFacts(k);
    BlockFreeable(OwnersOf(k), data / PAGE_SIZE);
    NumPagesPositive(cap);
    RunBounds(k, data / PAGE_SIZE, NumPages(cap));
    UsualCapacityFits(cap);
  }

  lemma SameBlock(s: Snap, b: nat)
    requires b in s.owners.blocks
    ensures OneBlockChange(s, s, b, b)
  {
  }

  lemma GrownCapacity(cap: nat, len: nat)
    requires cap < len * ELEM
    ensures UsualCapacity(len * ELEM * 4) && len * ELEM <= len * ELEM * 4 && Min(cap, len * ELEM * 4) == cap
  {
  }

  lemma MovedElements(s: Snap, s': Snap, data: nat, data': nat, size: nat, kept: nat, n: nat)
    requires data == data / PAGE_SIZE * PAGE_SIZE + HEADER && data' == data' / PAGE_SIZE * PAGE_SIZE + HEADER
    requires Does(s, Moved(data / PAGE_SIZE, data' / PAGE_SIZE, size, kept), s') && ELEM * n <= kept
    requires s.owners.Inv() && s.owners.free <= s.owners.usable && s.owners.bitmap <= s.owners.usable
    ensures data + kept <= |s.memory| && data' + kept <= |s'.memory|
    ensures Elements(s'.memory, data', n) == Elements(s.memory, data, n)
    ensures OneBlockChange(s, s', data / PAGE_SIZE, data' / PAGE_SIZE)
    ensures IsBlock(s'.owners.blocks, data') && s'.owners.blocks[data' / PAGE_SIZE] == size
  {
    hide Word, NumPages, ChangesOnly, Owners.Inv, OneBlockChange;
    MoveIsOneBlock(s, s', data / PAGE_SIZE, data' / PAGE_SIZE, size, kept);
    assert |s'.memory| == |s.memory| by { MovedLength(s, data / PAGE_SIZE, data' / PAGE_SIZE, size, kept, s'); }
    var old_, new_ := s.memory[data..data + kept], s'.memory[data'..data' + kept];
    assert old_ == new_;
    SliceOfSlice(s.memory, data, data + kept, 0, ELEM * n);
    SliceOfSlice(s'.memory, data', data' + kept, 0, ELEM * n);
    SameElements(s'.memory, s.memory, data', data, n);
  }

  /** The growing branch of vector_push_back; v.len already counts the new element. */
  method VectorGrow(k: Machine, v: Vector, ghost n: nat) returns (ok: bool)
    requires SystemInv(k) && IsBlock(k.blocks, v.data) && k.blocks[v.data / PAGE_SIZE] == v.cap
    requires UsualCapacity(v.cap) && n < v.len && ELEM * n <= v.cap < v.len * ELEM
    requires v.len * ELEM * 4 < TWO64 && Allocatable(k.unit, v.len * ELEM * 4)
    modifies k`freeMem, k`usedMem, k`blocks, k.ram, v`cap, v`data
    ensures SystemInv(k) && old(v.data) + ELEM * n <= k.ram.Length
    ensures !ok ==> NoRoom(k, v.len * ELEM * 4 / 4096 + 1)
    ensures ok ==> VectorOk(k.blocks, v) && v.data + ELEM * n <= k.ram.Length && v.cap == v.len * ELEM * 4
    ensures ok ==> Elements(k.ram[..], v.data, n) == Elements(old(k.ram[..]), old(v.data), n)
    ensures ok ==> OneBlockChange(old(SnapOf(k)), SnapOf(k), old(v.data) / PAGE_SIZE, v.data / PAGE_SIZE)
  {
    hide Clear, Get, Counted, Owners.Inv, Stored, WellFormed, ChangesOnly, PageToBit, NumPages, Elements,
         OneBlockChange, Does, PayloadFits, UsualCapacity, Allocatable, SystemInv, NoRoom, FirstFit;
    SystemFacts(k);
    ghost var s, data0, oldCap := SnapOf(k), v.data, v.cap;
    VectorRoom(k, v.data, v.cap);
    UsualCapacityFits(v.cap);
    GrownCapacity(v.cap, v.len);
    v.cap := v.len * ELEM * 4;
    var data := Realloc(k, v.data, v.cap);
    if data.None? {
      return false;
    }
    v.data := data.value;
    SystemFacts(k);
    MovedElements(s, SnapOf(k), data0, v.data, v.cap, oldCap, n);
    return true;
  }

  /** vector_push_back appends, moving the elements to a larger block when they no longer fit. */
  method VectorPush(k: Machine, v: Vector, elem: nat) returns (ok: bool)
    requires SystemInv(k) && VectorOk(k.blocks, v) && elem < TWO64
    requires v.cap < (v.len + 1) * ELEM ==>
      (v.len + 1) * ELEM * 4 < TWO64 && Allocatable(k.unit, (v.len + 1) * ELEM * 4)
    modifies k`freeMem, k`usedMem, k`blocks, k.ram, v
    ensures SystemInv(k) && old(v.data + ELEM * v.len) <= k.ram.Length
    ensures !ok ==> v.len == old(v.len) + 1 && old(v.cap) < v.len * ELEM && NoRoom(k, v.len * ELEM * 4 / 4096 + 1)
    ensures ok ==> VectorOk(k.blocks, v) && v.len == old(v.len) + 1 && v.data + ELEM * v.len <= k.ram.Length
    ensures ok ==> v.cap == if old(v.cap) < v.len * ELEM then v.len * ELEM * 4 else old(v.cap)
    ensures ok ==> Elements(k.ram[..], v.data, v.len) == Elements(old(k.ram[..]), old(v.data), old(v.len)) + [elem]
    ensures ok ==> OneBlockChange(old(SnapOf(k)), SnapOf(k), old(v.data) / PAGE_SIZE, v.data / PAGE_SIZE)
  {
    hide Clear, Get, Counted, Owners.Inv, Stored, WellFormed, WithWord, ChangesOnly, PageToBit, NumPages, Elements,
         OneBlockChange, Does, PayloadFits, UsualCapacity, Allocatable, SystemInv, NoRoom, FirstFit,
         Machine.BitmapInv, Machine.BitmapPages, Machine.Free;
    SystemFacts(k);
    ghost var s, n, data0 := SnapOf(k), v.len, v.data;
    VectorRoom(k, v.data, v.cap);
    SameBlock(s, v.data / PAGE_SIZE);
    v.len := v.len + 1;
    if v.cap < v.len * ELEM {
      ok := VectorGrow(k, v, n);
      if !ok {
        return false;
      }
    }
    ghost var s1 := SnapOf(k);
    SystemFacts(k);
    VectorRoom(k, v.data, v.cap);
    StoreInBlock(k, v.data / PAGE_SIZE, v.data + ELEM * (v.len - 1), elem);
    SystemFacts(k);
    AppendElement(s1.memory, v.data, n, elem);
    WriteIsOneBlock(s1, SnapOf(k), v.data / PAGE_SIZE);
    OneBlockTransitive(s, s1, SnapOf(k), data0 / PAGE_SIZE, v.data / PAGE_SIZE, v.data / PAGE_SIZE);
    return true;
  }
}

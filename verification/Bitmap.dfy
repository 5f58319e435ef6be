/**
 The bit array that backs the physical page manager. The buffer is a stretch of physical
 memory, so all functions here take the whole memory.
 */
module Bitmaps {
  import opened Bits
  import opened Words

  /** `buffer` is the physical address of the first byte, `size` the number of bytes. */
  datatype Bitmap = Bitmap(size: nat, buffer: nat) {
    predicate InMemory(m: seq<byte>) { buffer + size <= |m| }

    /** The off-by-one guard of bitmap_set lets `index == size * 8` through. */
    predicate Accepts(index: nat) { index <= size * 8 }
  }

  /** The value bitmap_set stores: bit k cleared by xor, then or-ed with the new value. */
  function SetInByte(b: byte, k: nat, setto: bool): (r: byte)
    requires k < 8
    ensures forall j: nat | j < 8 :: Bit(r, j) == if j == k then setto else Bit(b, j)
  {
    var mask := Shl(1, k);
    var temp := Xor(b, And(b, mask));
    SetInByteBits(b, k, setto);
    Or(temp, Shl(Digit(setto), k))
  }

  lemma SetInByteBits(b: byte, k: nat, setto: bool)
    requires k < 8
    ensures
      var r := Or(Xor(b, And(b, Shl(1, k))), Shl(Digit(setto), k));
      r < 256 && forall j: nat | j < 8 :: Bit(r, j) == if j == k then setto else Bit(b, j)
  {
    var mask := Shl(1, k);
    var temp := Xor(b, And(b, mask));
    var v := Shl(Digit(setto), k);
    Pow2Values();
    Pow2Grows(k + 1, 8);
    AndBound(b, mask);
    XorBound(b, And(b, mask), 8);
    ShlOne(k);
    ShlZero(k);
    OrBound(temp, v, 8);
    forall j: nat | j < 8
      ensures Bit(Or(temp, v), j) == if j == k then setto else Bit(b, j)
    {
      OrBit(temp, v, j);
      XorBit(b, And(b, mask), j);
      AndBit(b, mask, j);
      Pow2Bit(k, j);
      ZeroBit(j);
    }
  }

  /** What bitmap_get returns: the masked byte, as a truth value. No bounds check. */
  predicate Get(m: seq<byte>, bm: Bitmap, index: nat)
    requires bm.buffer + index / 8 < |m|
  {
    And(m[bm.buffer + index / 8], Shl(1, index % 8)) != 0
  }

  lemma GetIsBit(m: seq<byte>, bm: Bitmap, index: nat)
    requires bm.buffer + index / 8 < |m|
    ensures Get(m, bm, index) <==> Bit(m[bm.buffer + index / 8], index % 8)
  {
    ShlOne(index % 8);
    MaskSelectsBit(m[bm.buffer + index / 8], index % 8);
  }

  /** The memory after an accepted bitmap_set. */
  function WithBit(m: seq<byte>, bm: Bitmap, index: nat, setto: bool): seq<byte>
    requires bm.buffer + index / 8 < |m|
  {
    var a := bm.buffer + index / 8;
    m[a := SetInByte(m[a], index % 8, setto)]
  }

  /** Setting a bit changes that bit and no other bit. */
  lemma GetAfterSet(m: seq<byte>, bm: Bitmap, index: nat, setto: bool, j: nat)
    requires bm.buffer + index / 8 < |m| && bm.buffer + j / 8 < |m|
    ensures Get(WithBit(m, bm, index, setto), bm, j) == if j == index then setto else Get(m, bm, j)
  {
    GetIsBit(m, bm, j);
    GetIsBit(WithBit(m, bm, index, setto), bm, j);
    if j / 8 == index / 8 {
      assert j % 8 == index % 8 <==> j == index;
    }
  }

  /** The indices whose bit is clear: the free pages, when the bitmap tracks pages. */
  ghost function Clear(m: seq<byte>, bm: Bitmap): set<nat>
    requires bm.InMemory(m)
  {
    set i: nat | i < bm.size * 8 && !Get(m, bm, i)
  }

  /** The clear bits depend on the buffer only. */
  lemma ClearFrame(m: seq<byte>, m': seq<byte>, bm: Bitmap)
    requires bm.InMemory(m) && |m'| == |m|
    requires forall a | bm.buffer <= a < bm.buffer + bm.size :: m'[a] == m[a]
    ensures Clear(m', bm) == Clear(m, bm)
  {
    forall j: nat | j < bm.size * 8 ensures Get(m', bm, j) == Get(m, bm, j) {
      assert m'[bm.buffer + j / 8] == m[bm.buffer + j / 8];
    }
  }

  /**
   m' is m with the bits of s set to `setto`, as far as bitmap_set accepts them: up to and
   including index size * 8.
   */
  ghost predicate BitsSet(m: seq<byte>, m': seq<byte>, bm: Bitmap, s: set<nat>, setto: bool) {
    && AgreeOutside(m, m', bm.buffer, bm.buffer + bm.size + 1, 0, 0)
    && forall j: nat | bm.buffer + j / 8 < |m| ::
         Get(m', bm, j) == if j in s && bm.Accepts(j) then setto else Get(m, bm, j)
  }

  lemma BitsSetNothing(m: seq<byte>, bm: Bitmap, setto: bool)
    ensures BitsSet(m, m, bm, {}, setto)
  {
    hide Get;
  }

  lemma BitsSetOne(m: seq<byte>, bm: Bitmap, index: nat, setto: bool)
    requires bm.buffer + index / 8 < |m|
    ensures var m' := if bm.Accepts(index) && Get(m, bm, index) != setto then WithBit(m, bm, index, setto) else m;
      BitsSet(m, m', bm, {index}, setto)
  {
    hide Get, WithBit;
    if bm.Accepts(index) && Get(m, bm, index) != setto {
      WithBitFrame(m, bm, index, setto);
      forall j: nat | bm.buffer + j / 8 < |m|
        ensures Get(WithBit(m, bm, index, setto), bm, j) == if j == index then setto else Get(m, bm, j)
      {
        GetAfterSet(m, bm, index, setto, j);
      }
    }
  }

  lemma WithBitFrame(m: seq<byte>, bm: Bitmap, index: nat, setto: bool)
    requires bm.buffer + index / 8 < |m| && bm.Accepts(index)
    ensures AgreeOutside(m, WithBit(m, bm, index, setto), bm.buffer, bm.buffer + bm.size + 1, 0, 0)
  {
  }

  lemma BitsSetTransitive(m: seq<byte>, m': seq<byte>, m'': seq<byte>, bm: Bitmap, s: set<nat>, t: set<nat>,
                          setto: bool)
    requires BitsSet(m, m', bm, s, setto) && BitsSet(m', m'', bm, t, setto)
    ensures BitsSet(m, m'', bm, s + t, setto)
  {
    hide Get;
  }

  /** Indices that bitmap_set rejects make no difference. */
  lemma BitsSetRejected(m: seq<byte>, m': seq<byte>, bm: Bitmap, s: set<nat>, t: set<nat>, setto: bool)
    requires BitsSet(m, m', bm, s, setto) && s <= t && forall p | p in t - s :: !bm.Accepts(p)
    ensures BitsSet(m, m', bm, t, setto)
  {
    hide Get;
  }

  lemma BitsSetClear(m: seq<byte>, m': seq<byte>, bm: Bitmap, s: set<nat>, setto: bool)
    requires BitsSet(m, m', bm, s, setto) && bm.InMemory(m)
    ensures Clear(m', bm) == if setto then Clear(m, bm) - s else Clear(m, bm) + (set p | p in s && p < bm.size * 8)
  {
    hide Get;
  }

  /** If the bit just past the bitmap keeps its value, so does everything outside the bitmap. */
  lemma BitsSetInside(m: seq<byte>, m': seq<byte>, bm: Bitmap, s: set<nat>, setto: bool)
    requires BitsSet(m, m', bm, s, setto)
    requires bm.buffer + bm.size < |m| ==> Get(m', bm, bm.size * 8) == Get(m, bm, bm.size * 8)
    ensures AgreeOutside(m, m', bm.buffer, bm.buffer + bm.size, 0, 0)
  {
    hide Get;
    var a := bm.buffer + bm.size;
    if a < |m| {
      forall i: nat | i < 8 ensures Bit(m'[a], i) == Bit(m[a], i) {
        var j := bm.size * 8 + i;
        assert j / 8 == bm.size && j % 8 == i;
        GetIsBit(m, bm, j);
        GetIsBit(m', bm, j);
      }
      Pow2Values();
      SameBits(m'[a], m[a], 8);
    }
  }

  method BitmapGet(ram: array<byte>, bm: Bitmap, index: nat) returns (r: bool)
    requires bm.buffer + index / 8 < ram.Length
    ensures r == Get(ram[..], bm, index)
  {
    var byteIndex, bitIndex := index / 8, index % 8;
    var bitIndexer := Shl(1, bitIndex);
    r := And(ram[bm.buffer + byteIndex], bitIndexer) != 0;
  }

  method BitmapSet(ram: array<byte>, bm: Bitmap, index: nat, setto: bool) returns (r: bool)
    requires bm.Accepts(index) ==> bm.buffer + index / 8 < ram.Length
    modifies ram
    ensures r == bm.Accepts(index)
    ensures ram[..] == if r then WithBit(old(ram[..]), bm, index, setto) else old(ram[..])
  {
    if index > bm.size * 8 {
      return false;
    }
    var byteIndex, bitIndex := index / 8, index % 8;
    var bitMask := Shl(1, bitIndex);
    SetInByteBits(ram[bm.buffer + byteIndex], bitIndex, setto);
    var temp := Xor(ram[bm.buffer + byteIndex], And(ram[bm.buffer + byteIndex], bitMask));
    ram[bm.buffer + byteIndex] := Or(temp, Shl(Digit(setto), bitIndex));
    return true;
  }

  /**
   The bound in bitmap_set admits one index too many. A call that really flips a bit leaves
   every byte outside the buffer alone exactly when the index is not `size * 8`.
   */
  lemma SetStaysInsideIff(m: seq<byte>, bm: Bitmap, index: nat, setto: bool)
    requires bm.Accepts(index) && bm.buffer + index / 8 < |m|
    requires Get(m, bm, index) != setto
    ensures AgreeOutside(m, WithBit(m, bm, index, setto), bm.buffer, bm.buffer + bm.size, 0, 0)
       <==> index != bm.size * 8
  {
    var m' := WithBit(m, bm, index, setto);
    GetAfterSet(m, bm, index, setto, index);
    GetIsBit(m, bm, index);
    GetIsBit(m', bm, index);
    var a := bm.buffer + index / 8;
    assert m'[a] != m[a];
  }
}

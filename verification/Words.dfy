/**
 Bytes and little-endian 64-bit words inside a byte-addressed memory.
 */
module Words {
  import opened Bits

  type byte = x: int | 0 <= x < 256

  /** The number whose little-endian base-256 digits are s. */
  function LittleEndian(s: seq<byte>): nat {
    if s == [] then 0 else s[0] + 256 * LittleEndian(s[1..])
  }

  /** The n low base-256 digits of w. */
  function Bytes(w: nat, n: nat): (s: seq<byte>)
    ensures |s| == n
  {
    if n == 0 then [] else [w % 256] + Bytes(w / 256, n - 1)
  }

  /** The 64-bit word stored at address a. */
  function Word(m: seq<byte>, a: nat): nat
    requires a + 8 <= |m|
  {
    LittleEndian(m[a..a + 8])
  }

  /** Memory m with the 64-bit word w stored at address a. */
  function WithWord(m: seq<byte>, a: nat, w: nat): (m': seq<byte>)
    requires a + 8 <= |m|
    ensures |m'| == |m|
  {
    m[..a] + Bytes(w, 8) + m[a + 8..]
  }

  /** m and m' agree at every address that is neither in [a, b) nor in [c, d). */
  ghost predicate AgreeOutside(m: seq<byte>, m': seq<byte>, a: int, b: int, c: int, d: int) {
    && |m'| == |m|
    && forall i | 0 <= i < |m| && !(a <= i < b) && !(c <= i < d) :: m'[i] == m[i]
  }

  lemma {:induction false} BytesValue(w: nat, n: nat)
    requires w < Pow2(8 * n)
    ensures LittleEndian(Bytes(w, n)) == w
  {
    if n > 0 {
      assert Pow2(8 * n) == 256 * Pow2(8 * (n - 1)) by { Pow2Step8(8 * (n - 1)); }
      BytesValue(w / 256, n - 1);
      assert Bytes(w, n)[1..] == Bytes(w / 256, n - 1);
    }
  }

  lemma Pow2Step8(k: nat)
    ensures Pow2(k + 8) == 256 * Pow2(k)
  {
    assert Pow2(k + 4) == 16 * Pow2(k) by {
      assert Pow2(k + 2) == 4 * Pow2(k);
      assert Pow2(k + 4) == 4 * Pow2(k + 2);
    }
    assert Pow2(k + 8) == 16 * Pow2(k + 4) by {
      assert Pow2(k + 6) == 4 * Pow2(k + 4);
      assert Pow2(k + 8) == 4 * Pow2(k + 6);
    }
  }

  lemma {:induction false} LittleEndianBound(s: seq<byte>)
    ensures LittleEndian(s) < Pow2(8 * |s|)
  {
    if s != [] {
      LittleEndianBound(s[1..]);
      Pow2Step8(8 * |s[1..]|);
    }
  }

  lemma WordBound(m: seq<byte>, a: nat)
    requires a + 8 <= |m|
    ensures Word(m, a) < TWO64
  {
    LittleEndianBound(m[a..a + 8]);
    Pow2Values();
  }

  /** A stored word reads back, and a word that does not overlap it is unchanged. */
  lemma WordAfterStore(m: seq<byte>, a: nat, w: nat, b: nat)
    requires a + 8 <= |m| && b + 8 <= |m| && w < TWO64
    ensures Word(WithWord(m, a, w), a) == w
    ensures b + 8 <= a || a + 8 <= b ==> Word(WithWord(m, a, w), b) == Word(m, b)
  {
    var m' := WithWord(m, a, w);
    assert m'[a..a + 8] == Bytes(w, 8);
    Pow2Values();
    BytesValue(w, 8);
    if b + 8 <= a || a + 8 <= b {
      assert m'[b..b + 8] == m[b..b + 8];
    }
  }

  /** A word none of whose bytes may have changed is unchanged. */
  lemma WordFrame(m: seq<byte>, m': seq<byte>, a: int, b: int, c: int, d: int, x: nat)
    requires AgreeOutside(m, m', a, b, c, d) && x + 8 <= |m|
    requires b <= a || x + 8 <= a || b <= x
    requires d <= c || x + 8 <= c || d <= x
    ensures Word(m, x) == Word(m', x)
  {
    assert m[x..x + 8] == m'[x..x + 8];
  }

  lemma SliceOfSlice(m: seq<byte>, lo: nat, hi: nat, a: nat, b: nat)
    requires lo <= hi <= |m| && a <= b <= hi - lo
    ensures m[lo..hi][a..b] == m[lo + a..lo + b]
  {
    var s, t := m[lo..hi][a..b], m[lo + a..lo + b];
    forall i | 0 <= i < b - a ensures s[i] == t[i] {
      assert m[lo..hi][a + i] == m[lo + a + i];
    }
  }

  lemma {:induction false} LittleEndianZero(s: seq<byte>)
    requires forall i | 0 <= i < |s| :: s[i] == 0
    ensures LittleEndian(s) == 0
  {
    if s != [] { LittleEndianZero(s[1..]); }
  }

  // ---------------------------------------------------------------- loads, stores, copies

  method Load64(ram: array<byte>, a: nat) returns (w: nat)
    requires a + 8 <= ram.Length
    ensures w == Word(ram[..], a) && w < TWO64
  {
    WordBound(ram[..], a);
    w := 0;
    var i := 8;
    assert ram[..][a + 8..a + 8] == [];
    while i > 0
      invariant 0 <= i <= 8
      invariant w == LittleEndian(ram[..][a + i..a + 8])
    {
      i := i - 1;
      assert ram[..][a + i..a + 8][1..] == ram[..][a + i + 1..a + 8];
      w := ram[a + i] + 256 * w;
    }
  }

  method Store64(ram: array<byte>, a: nat, w: nat)
    requires a + 8 <= ram.Length
    modifies ram
    ensures ram[..] == WithWord(old(ram[..]), a, w)
  {
    ghost var m, bytes := ram[..], Bytes(w, 8);
    var i, v := 0, w;
    hide Bytes;
    while i < 8
      invariant 0 <= i <= 8 && v >= 0
      invariant |ram[..]| == |m| && forall j | 0 <= j < |m| && !(a <= j < a + i) :: ram[j] == m[j]
      invariant forall j | a <= j < a + i :: ram[j] == bytes[j - a]
      invariant bytes[i..] == Bytes(v, 8 - i)
    {
      NextByte(bytes, i, v);
      ram[a + i] := v % 256;
      v := v / 256;
      i := i + 1;
    }
  }

  lemma NextByte(bytes: seq<byte>, i: nat, v: nat)
    requires i < |bytes| && bytes[i..] == Bytes(v, |bytes| - i)
    ensures bytes[i] == v % 256 && bytes[i + 1..] == Bytes(v / 256, |bytes| - (i + 1))
  {
    assert bytes[i..][0] == bytes[i] && bytes[i..][1..] == bytes[i + 1..];
  }

  /** memset: fills n bytes from s with c. */
  method Memset(ram: array<byte>, s: nat, c: byte, n: nat)
    requires s + n <= ram.Length
    modifies ram
    ensures AgreeOutside(old(ram[..]), ram[..], s, s + n, 0, 0)
    ensures forall i | s <= i < s + n :: ram[i] == c
  {
    ghost var m := ram[..];
    var su, left := s, n;
    while left > 0
      invariant left >= 0 && su + left == s + n && su >= s
      invariant AgreeOutside(m, ram[..], s, su, 0, 0)
      invariant forall i | s <= i < su :: ram[i] == c
    {
      ram[su] := c;
      su, left := su + 1, left - 1;
    }
  }

  /**
   memcpy: a forward byte loop. It delivers the source bytes whenever the destination does
   not start inside the source; in particular it may start below an overlapping source.
   */
  method Memcpy(ram: array<byte>, s1: nat, s2: nat, n: nat)
    requires s1 + n <= ram.Length && s2 + n <= ram.Length
    requires s1 <= s2 || s2 + n <= s1
    modifies ram
    ensures AgreeOutside(old(ram[..]), ram[..], s1, s1 + n, 0, 0)
    ensures ram[s1..s1 + n] == old(ram[s2..s2 + n])
  {
    ghost var m := ram[..];
    var su1, su2, left := s1, s2, n;
    while left > 0
      invariant 0 <= left <= n && su1 == s1 + n - left && su2 == s2 + n - left
      invariant AgreeOutside(m, ram[..], s1, su1, 0, 0)
      invariant ram[s1..su1] == m[s2..su2]
    {
      assert ram[..][su2] == m[su2];
      ghost var copied := ram[s1..su1];
      ram[su1] := ram[su2];
      assert ram[s1..su1 + 1] == copied + [m[su2]];
      su1, su2, left := su1 + 1, su2 + 1, left - 1;
    }
  }

  /**
   memmove (section 7.21.2.2 of ISO C99): whatever the overlap, the destination ends up with
   the original source bytes and nothing else changes.
   */
  method Memmove(ram: array<byte>, s1: nat, s2: nat, n: nat)
    requires s1 + n <= ram.Length && s2 + n <= ram.Length
    modifies ram
    ensures AgreeOutside(old(ram[..]), ram[..], s1, s1 + n, 0, 0)
    ensures ram[s1..s1 + n] == old(ram[s2..s2 + n])
  {
    ghost var m := ram[..];
    var sc1, sc2, left := s1, s2, n;
    if sc2 < sc1 && sc1 < sc2 + n {
      sc1, sc2 := sc1 + n, sc2 + n;
      while left > 0
        invariant 0 <= left <= n && sc1 == s1 + left && sc2 == s2 + left
        invariant AgreeOutside(m, ram[..], sc1, s1 + n, 0, 0)
        invariant forall i | sc1 <= i < s1 + n :: ram[i] == m[i - s1 + s2]
      {
        sc1, sc2 := sc1 - 1, sc2 - 1;
        assert ram[..][sc2] == m[sc2];
        ram[sc1] := ram[sc2];
        left := left - 1;
      }
    } else {
      while left > 0
        invariant 0 <= left <= n && sc1 == s1 + n - left && sc2 == s2 + n - left
        invariant AgreeOutside(m, ram[..], s1, sc1, 0, 0)
        invariant forall i | s1 <= i < sc1 :: ram[i] == m[i - s1 + s2]
      {
        assert ram[..][sc2] == m[sc2];
        ram[sc1] := ram[sc2];
        sc1, sc2, left := sc1 + 1, sc2 + 1, left - 1;
      }
    }
    ghost var moved, wanted := ram[s1..s1 + n], m[s2..s2 + n];
    assert forall i | 0 <= i < n :: moved[i] == wanted[i];
  }
}

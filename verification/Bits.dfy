/**
 Unsigned machine integers as natural numbers, with the C operators `&`, `|`, `^`, `~`, `<<`
 and `>>` defined digit by digit in base two. Everything about masks and flags is derived
 from `Bit`, the i-th binary digit.
 */
module Bits {

  const TWO64: nat := 0x1_0000_0000_0000_0000
  const TWO52: nat := 0x10_0000_0000_0000

  function Pow2(k: nat): (p: nat)
    ensures p >= 1
  {
    if k == 0 then 1 else 2 * Pow2(k - 1)
  }

  /** The i-th binary digit of x. */
  predicate Bit(x: nat, i: nat) {
    if i == 0 then x % 2 == 1 else Bit(x / 2, i - 1)
  }

  function Digit(b: bool): nat { if b then 1 else 0 }

  /** C's `x & y`. */
  function And(x: nat, y: nat): nat
    decreases x
  {
    if x == 0 || y == 0 then 0
    else 2 * And(x / 2, y / 2) + Digit(x % 2 == 1 && y % 2 == 1)
  }

  /** C's `x | y`. */
  function Or(x: nat, y: nat): nat
    decreases x
  {
    if x == 0 then y
    else 2 * Or(x / 2, y / 2) + Digit(x % 2 == 1 || y % 2 == 1)
  }

  /** C's `x ^ y`. */
  function Xor(x: nat, y: nat): nat
    decreases x
  {
    if x == 0 then y
    else 2 * Xor(x / 2, y / 2) + Digit((x % 2 == 1) != (y % 2 == 1))
  }

  /** C's `~x` on 64 bits. */
  function Not64(x: nat): nat
    requires x < TWO64
  {
    TWO64 - 1 - x
  }

  /** C's `x << k`, before truncation to the width of the result. */
  function Shl(x: nat, k: nat): nat
    decreases k
  {
    if k == 0 then x else 2 * Shl(x, k - 1)
  }

  /** C's `x >> k`. */
  function Shr(x: nat, k: nat): nat
    decreases k
  {
    if k == 0 then x else Shr(x / 2, k - 1)
  }

  /** C's `x + y` and `x - y` on 64-bit unsigned integers, which wrap around. */
  function Add64(x: nat, y: nat): nat { (x + y) % TWO64 }

  function Sub64(x: nat, y: nat): nat
    requires y <= TWO64
  {
    (x + TWO64 - y) % TWO64
  }

  /** The 64-bit value of an integer. */
  function Wrap(x: int): nat { x % TWO64 }

  lemma {:induction false} ZeroBit(i: nat)
    ensures !Bit(0, i)
  {
    if i > 0 { ZeroBit(i - 1); }
  }

  lemma HalfAndDigit(a: nat, d: bool)
    ensures (2 * a + Digit(d)) / 2 == a && ((2 * a + Digit(d)) % 2 == 1 <==> d)
  {
  }

  lemma {:induction false} AndBit(x: nat, y: nat, i: nat)
    ensures Bit(And(x, y), i) <==> Bit(x, i) && Bit(y, i)
  {
    if x == 0 || y == 0 {
      ZeroBit(i);
    } else if i > 0 {
      AndBit(x / 2, y / 2, i - 1);
    }
  }

  lemma {:induction false} OrBit(x: nat, y: nat, i: nat)
    ensures Bit(Or(x, y), i) <==> Bit(x, i) || Bit(y, i)
  {
    if x == 0 {
      ZeroBit(i);
    } else if i > 0 {
      HalfAndDigit(Or(x / 2, y / 2), x % 2 == 1 || y % 2 == 1);
      OrBit(x / 2, y / 2, i - 1);
    } else {
      HalfAndDigit(Or(x / 2, y / 2), x % 2 == 1 || y % 2 == 1);
    }
  }

  lemma {:induction false} XorBit(x: nat, y: nat, i: nat)
    ensures Bit(Xor(x, y), i) <==> (Bit(x, i) != Bit(y, i))
  {
    if x == 0 {
      ZeroBit(i);
    } else if i > 0 {
      HalfAndDigit(Xor(x / 2, y / 2), (x % 2 == 1) != (y % 2 == 1));
      XorBit(x / 2, y / 2, i - 1);
    } else {
      HalfAndDigit(Xor(x / 2, y / 2), (x % 2 == 1) != (y % 2 == 1));
    }
  }

  /** Two numbers of n bits with the same digits are equal. */
  lemma {:induction false} SameBits(x: nat, y: nat, n: nat)
    requires x < Pow2(n) && y < Pow2(n)
    requires forall i: nat | i < n :: Bit(x, i) == Bit(y, i)
    ensures x == y
  {
    if n > 0 {
      assert Bit(x, 0) == Bit(y, 0);
      forall i: nat | i < n - 1
        ensures Bit(x / 2, i) == Bit(y / 2, i)
      {
        assert Bit(x, i + 1) == Bit(y, i + 1);
      }
      SameBits(x / 2, y / 2, n - 1);
    }
  }

  lemma {:induction false} HighBitsClear(x: nat, n: nat, i: nat)
    requires x < Pow2(n) && i >= n
    ensures !Bit(x, i)
  {
    if n == 0 {
      ZeroBit(i);
    } else {
      HighBitsClear(x / 2, n - 1, i - 1);
    }
  }

  lemma {:induction false} AndBound(x: nat, y: nat)
    ensures And(x, y) <= y && And(x, y) <= x
  {
    if x != 0 && y != 0 {
      AndBound(x / 2, y / 2);
    }
  }

  lemma {:induction false} OrBound(x: nat, y: nat, n: nat)
    requires x < Pow2(n) && y < Pow2(n)
    ensures Or(x, y) < Pow2(n)
  {
    if x != 0 && n > 0 {
      OrBound(x / 2, y / 2, n - 1);
    }
  }

  lemma {:induction false} XorBound(x: nat, y: nat, n: nat)
    requires x < Pow2(n) && y < Pow2(n)
    ensures Xor(x, y) < Pow2(n)
  {
    if x != 0 && n > 0 {
      XorBound(x / 2, y / 2, n - 1);
    }
  }

  lemma {:induction false} ShlBit(x: nat, k: nat, i: nat)
    ensures Bit(Shl(x, k), i) <==> i >= k && Bit(x, i - k)
  {
    if k > 0 && i > 0 {
      ShlBit(x, k - 1, i - 1);
    }
  }

  lemma {:induction false} ShlOne(k: nat)
    ensures Shl(1, k) == Pow2(k)
  {
    if k > 0 { ShlOne(k - 1); }
  }

  lemma {:induction false} ShlZero(k: nat)
    ensures Shl(0, k) == 0
  {
    if k > 0 { ShlZero(k - 1); }
  }

  lemma {:induction false} Pow2Bit(k: nat, i: nat)
    ensures Bit(Pow2(k), i) <==> i == k
  {
    if k == 0 {
      if i > 0 { ZeroBit(i - 1); }
    } else if i > 0 {
      Pow2Bit(k - 1, i - 1);
    }
  }

  lemma {:induction false} MaskSelectsBit(x: nat, k: nat)
    ensures And(x, Pow2(k)) == if Bit(x, k) then Pow2(k) else 0
  {
    if x == 0 {
      ZeroBit(k);
    } else if k == 0 {
      assert And(x / 2, 0) == 0;
    } else {
      assert Pow2(k) / 2 == Pow2(k - 1) && Pow2(k) % 2 == 0;
      MaskSelectsBit(x / 2, k - 1);
    }
  }

  /** Tests of the lowest four flags. */
  lemma MaskTest(flags: nat)
    ensures And(flags, 1) != 0 <==> Bit(flags, 0)
    ensures And(flags, 2) != 0 <==> Bit(flags, 1)
    ensures And(flags, 4) != 0 <==> Bit(flags, 2)
    ensures And(flags, 8) != 0 <==> Bit(flags, 3)
  {
    forall k: nat | k < 4 ensures And(flags, Pow2(k)) != 0 <==> Bit(flags, k) {
      MaskSelectsBit(flags, k);
    }
    assert Pow2(0) == 1 && Pow2(1) == 2 && Pow2(2) == 4 && Pow2(3) == 8;
  }

  lemma {:induction false} Pow2Grows(j: nat, k: nat)
    requires j <= k
    ensures Pow2(j) <= Pow2(k)
  {
    if j < k { Pow2Grows(j, k - 1); }
  }

  /** Masking with two disjoint masks splits a number. */
  lemma {:induction false} AndSplit(x: nat, y: nat, z: nat)
    requires And(y, z) == 0
    ensures And(x, y) + And(x, z) == And(x, y + z)
    decreases x
  {
    hide And;
    AndZero(x);
    AndZero(y);
    AndZero(z);
    AndZero(y + z);
    if x != 0 && y != 0 && z != 0 {
      AndUnfold(y, z);
      AndUnfold(x, y);
      AndUnfold(x, z);
      AndUnfold(x, y + z);
      HalvesAdd(y, z);
      AndSplit(x / 2, y / 2, z / 2);
    }
  }

  lemma AndZero(x: nat)
    ensures And(x, 0) == 0 && And(0, x) == 0
  {
  }

  lemma AndUnfold(x: nat, y: nat)
    requires x != 0 && y != 0
    ensures And(x, y) == 2 * And(x / 2, y / 2) + (if x % 2 == 1 && y % 2 == 1 then 1 else 0)
  {
  }

  /** Adding without a carry from the lowest digit. */
  lemma HalvesAdd(y: nat, z: nat)
    requires !(y % 2 == 1 && z % 2 == 1)
    ensures (y + z) / 2 == y / 2 + z / 2 && (y + z) % 2 == y % 2 + z % 2
  {
  }

  /** The number made of the k low digits of x. */
  function Low(x: nat, k: nat): nat
    decreases k
  {
    if k == 0 then 0 else 2 * Low(x / 2, k - 1) + x % 2
  }

  /** Masking with k ones keeps the k low digits. */
  lemma {:induction false} LowMask(x: nat, k: nat)
    ensures And(x, Pow2(k) - 1) == Low(x, k)
    decreases k
  {
    if x == 0 {
      LowZero(k);
    } else if k > 0 {
      var y: nat := 2 * Pow2(k - 1) - 1;
      assert y / 2 == Pow2(k - 1) - 1 && y % 2 == 1;
      LowMask(x / 2, k - 1);
    }
  }

  lemma {:induction false} LowZero(k: nat)
    ensures Low(0, k) == 0
  {
    if k > 0 { LowZero(k - 1); }
  }

  lemma {:induction false} ShrSplit(x: nat, j: nat, k: nat)
    ensures Shr(x, j + k) == Shr(Shr(x, j), k)
    decreases j
  {
    if j > 0 { ShrSplit(x / 2, j - 1, k); }
  }

  lemma Shr3(x: nat)
    ensures Shr(x, 3) == x / 8
  {
  }

  lemma Shr9(x: nat)
    ensures Shr(x, 9) == x / 512
  {
    hide Shr;
    ShrSplit(x, 3, 6);
    ShrSplit(Shr(x, 3), 3, 3);
    Shr3(x);
    Shr3(x / 8);
    Shr3(x / 64);
  }

  /** The shifts that pick table indices out of an address, as divisions. */
  lemma ShrValues(x: nat)
    ensures Shr(x, 12) == x / 4096 && Shr(x, 21) == x / 0x20_0000
    ensures Shr(x, 30) == x / 0x4000_0000 && Shr(x, 39) == x / 0x80_0000_0000
  {
    hide Shr;
    ShrSplit(x, 3, 9);
    ShrSplit(x, 12, 9);
    ShrSplit(x, 21, 9);
    ShrSplit(x, 30, 9);
    Shr3(x);
    Shr9(x / 8);
    Shr9(x / 4096);
    Shr9(x / 0x20_0000);
    Shr9(x / 0x4000_0000);
  }

  lemma LowBy3(x: nat, k: nat)
    ensures Low(x, 3 + k) == x % 8 + 8 * Low(x / 8, k)
  {
    assert Low(x, 3 + k) == x % 2 + 2 * Low(x / 2, 2 + k);
    assert Low(x / 2, 2 + k) == x / 2 % 2 + 2 * Low(x / 4, 1 + k);
    assert Low(x / 4, 1 + k) == x / 4 % 2 + 2 * Low(x / 8, k);
  }

  lemma Low3(x: nat)
    ensures Low(x, 3) == x % 8
  {
    LowBy3(x, 0);
  }

  /** A remainder, split into its three low digits and the rest. */
  lemma ModBy8x8(x: nat)
    ensures x % 64 == x % 8 + 8 * (x / 8 % 8)
  {
    var q, h := x / 8, x / 8 / 8;
    assert x == 8 * q + x % 8 && q == 8 * h + q % 8;
    assert x == 64 * h + (8 * (q % 8) + x % 8);
  }

  lemma ModBy8x64(x: nat)
    ensures x % 512 == x % 8 + 8 * (x / 8 % 64)
  {
    var q, h := x / 8, x / 8 / 64;
    assert x == 8 * q + x % 8 && q == 64 * h + q % 64;
    assert x == 512 * h + (8 * (q % 64) + x % 8);
  }

  lemma ModBy8x512(x: nat)
    ensures x % 4096 == x % 8 + 8 * (x / 8 % 512)
  {
    var q, h := x / 8, x / 8 / 512;
    assert x == 8 * q + x % 8 && q == 512 * h + q % 512;
    assert x == 4096 * h + (8 * (q % 512) + x % 8);
  }

  lemma Low6(x: nat)
    ensures Low(x, 6) == x % 64
  {
    hide Low;
    LowBy3(x, 3);
    Low3(x / 8);
    ModBy8x8(x);
  }

  lemma Low9(x: nat)
    ensures Low(x, 9) == x % 512
  {
    hide Low;
    LowBy3(x, 6);
    Low6(x / 8);
    ModBy8x64(x);
  }

  lemma Low12(x: nat)
    ensures Low(x, 12) == x % 4096
  {
    hide Low;
    LowBy3(x, 9);
    Low9(x / 8);
    ModBy8x512(x);
  }

  lemma LowMaskValues(x: nat)
    ensures And(x, 0x1ff) == x % 512 && And(x, 0xfff) == x % 4096
  {
    Pow2Values();
    LowMask(x, 9);
    LowMask(x, 12);
    Low9(x);
    Low12(x);
  }

  lemma {:induction false} MulGap(a: nat, b: nat, d: nat)
    requires a > b
    ensures a * d >= b * d + d
  {
    assert a * d == (a - 1) * d + d;
    if a > b + 1 { MulGap(a - 1, b, d); }
  }

  lemma DivMono(a: nat, b: nat, d: nat)
    requires a <= b && d >= 1
    ensures a / d <= b / d
  {
    if a / d > b / d { MulGap(a / d, b / d, d); }
  }

  /** A quotient grows by at most one when the dividend grows by one. */
  lemma DivStep(a: nat, d: nat)
    requires a > 0 && d >= 1
    ensures (a - 1) / d <= a / d <= (a - 1) / d + 1
  {
    DivMono(a - 1, a, d);
    if a / d > (a - 1) / d + 1 { MulGap(a / d, (a - 1) / d + 1, d); }
  }

  lemma {:induction false} ComplementBit(x: nat, n: nat, i: nat)
    requires x < Pow2(n) && i < n
    ensures Bit(Pow2(n) - 1 - x, i) == !Bit(x, i)
  {
    var y := Pow2(n) - 1 - x;
    assert y / 2 == Pow2(n - 1) - 1 - x / 2;
    if i > 0 {
      ComplementBit(x / 2, n - 1, i - 1);
    }
  }

  lemma Pow2Values()
    ensures Pow2(3) == 8 && Pow2(8) == 256 && Pow2(9) == 512 && Pow2(12) == 4096
    ensures Pow2(21) == 0x20_0000 && Pow2(30) == 0x4000_0000 && Pow2(39) == 0x80_0000_0000
    ensures Pow2(52) == TWO52 && Pow2(63) == TWO64 / 2 && Pow2(64) == TWO64
  {
    assert Pow2(4) == 16;
    assert Pow2(16) == 0x1_0000 by { assert Pow2(8) == 256; assert Pow2(12) == 4096; }
    assert Pow2(20) == 0x10_0000;
    assert Pow2(24) == 0x100_0000;
    assert Pow2(28) == 0x1000_0000;
    assert Pow2(32) == 0x1_0000_0000;
    assert Pow2(36) == 0x10_0000_0000;
    assert Pow2(40) == 0x100_0000_0000;
    assert Pow2(44) == 0x1000_0000_0000;
    assert Pow2(48) == 0x1_0000_0000_0000;
    assert Pow2(56) == 0x100_0000_0000_0000;
    assert Pow2(60) == 0x1000_0000_0000_0000;
  }

  lemma {:induction false} Not64Bit(x: nat, i: nat)
    requires x < TWO64 && i < 64
    ensures Bit(Not64(x), i) == !Bit(x, i)
  {
    Pow2Values();
    ComplementBit(x, 64, i);
  }
}

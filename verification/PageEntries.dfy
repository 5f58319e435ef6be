/**
 The 64-bit page-table entry and the two flag vocabularies: the portable flags of
 arch/general/paging.h and the x86-64 entry bits they are translated to.
 */
module PageEntries {
  import opened Bits

  const ADDR_MASK: nat := 0x000F_FFFF_FFFF_F000
  const XD: nat := 0x8000_0000_0000_0000

  // ------------------------------------------------------------------ entries and flags

  /** What a mapping lets a program do: write, access from user mode, fetch instructions. */
  datatype Rights = Rights(write: bool, user: bool, execute: bool) {
    function Meet(other: Rights): Rights {
      Rights(write && other.write, user && other.user, execute && other.execute)
    }
  }

  const ALL_RIGHTS := Rights(true, true, true)

  predicate Present(e: nat) { Bit(e, 0) }

  /** PML4_GET_ADDR: the page frame an entry points to. */
  function Frame(e: nat): nat { And(e, ADDR_MASK) }

  function RightsOf(e: nat): Rights { Rights(Bit(e, 1), Bit(e, 2), !Bit(e, 63)) }

  /** Bits 52 to 62 of the entry are clear: of the bits above the frame, only no-execute may be set. */
  ghost predicate HighClear(e: nat) { forall i: nat | 52 <= i < 63 :: !Bit(e, i) }

  /** The request a flags word makes: bit 0 readable, 1 writable, 2 executable, 3 user. */
  predicate AsksPresent(flags: nat) { Bit(flags, 0) }

  function Asked(flags: nat): Rights { Rights(Bit(flags, 1), Bit(flags, 3), Bit(flags, 2)) }

  /** transform_flags: from the portable flags to the bits of an x86-64 entry. */
  function TransformFlags(flags: nat): (r: nat)
    ensures r < TWO64
    ensures forall i: nat | i < 64 ::
      Bit(r, i) == if i == 0 then Bit(flags, 0) else if i == 1 then Bit(flags, 1)
                   else if i == 2 then Bit(flags, 3) else i == 63 && !Bit(flags, 2)
  {
    TransformFlagsBits(flags);
    var f0 := XD;
    var f1 := if And(flags, 1) != 0 then Or(f0, 1) else f0;
    var f2 := if And(flags, 2) != 0 then Or(f1, 2) else f1;
    var f3 := if And(flags, 4) != 0 then And(f2, Not64(XD)) else f2;
    if And(flags, 8) != 0 then Or(f3, 4) else f3
  }

  lemma SetFlag(f: nat, k: nat)
    requires f < TWO64 && k < 64
    ensures Or(f, Pow2(k)) < TWO64
    ensures forall i: nat | i < 64 :: Bit(Or(f, Pow2(k)), i) == (i == k || Bit(f, i))
  {
    Pow2Values();
    Pow2Grows(k + 1, 64);
    OrBound(f, Pow2(k), 64);
    forall i: nat | i < 64 ensures Bit(Or(f, Pow2(k)), i) == (i == k || Bit(f, i)) {
      OrBit(f, Pow2(k), i);
      Pow2Bit(k, i);
    }
  }

  lemma UnsetFlag(f: nat, k: nat)
    requires f < TWO64 && k < 64
    ensures Pow2(k) < TWO64 && And(f, Not64(Pow2(k))) < TWO64
    ensures forall i: nat | i < 64 :: Bit(And(f, Not64(Pow2(k))), i) == (i != k && Bit(f, i))
  {
    Pow2Values();
    Pow2Grows(k + 1, 64);
    AndBound(f, Not64(Pow2(k)));
    forall i: nat | i < 64 ensures Bit(And(f, Not64(Pow2(k))), i) == (i != k && Bit(f, i)) {
      AndBit(f, Not64(Pow2(k)), i);
      Not64Bit(Pow2(k), i);
      Pow2Bit(k, i);
    }
  }

  lemma TransformFlagsBits(flags: nat)
    ensures
      var f1 := if And(flags, 1) != 0 then Or(XD, 1) else XD;
      var f2 := if And(flags, 2) != 0 then Or(f1, 2) else f1;
      var f3 := if And(flags, 4) != 0 then And(f2, Not64(XD)) else f2;
      var r := if And(flags, 8) != 0 then Or(f3, 4) else f3;
      && r < TWO64
      && forall i: nat | i < 64 ::
           Bit(r, i) == if i == 0 then Bit(flags, 0) else if i == 1 then Bit(flags, 1)
                        else if i == 2 then Bit(flags, 3) else i == 63 && !Bit(flags, 2)
  {
    MaskTest(flags);
    Pow2Values();
    assert Pow2(0) == 1 && Pow2(1) == 2 && Pow2(2) == 4;
    forall i: nat ensures Bit(XD, i) <==> i == 63 { Pow2Bit(63, i); }
    var f1 := if And(flags, 1) != 0 then Or(XD, 1) else XD;
    SetFlag(XD, 0);
    var f2 := if And(flags, 2) != 0 then Or(f1, 2) else f1;
    SetFlag(f1, 1);
    var f3 := if And(flags, 4) != 0 then And(f2, Not64(XD)) else f2;
    UnsetFlag(f2, 63);
    SetFlag(f3, 2);
  }

  predicate IsFrame(a: nat) { a % 4096 == 0 && a < TWO52 }

  lemma AddrMaskBit(i: nat)
    requires i < 64
    ensures Bit(ADDR_MASK, i) <==> 12 <= i < 52
  {
    Pow2Values();
    var low: nat := Pow2(40) - 1;
    assert Pow2(40) * 4096 == TWO52 by { Pow2At36(); }
    assert ADDR_MASK == Shl(low, 12);
    ShlBit(low, 12, i);
    if i >= 12 {
      ZeroBit(i - 12);
      if i - 12 < 40 {
        ComplementBit(0, 40, i - 12);
      } else {
        HighBitsClear(low, 40, i - 12);
      }
    }
  }

  lemma Pow2Add4(k: nat)
    ensures Pow2(k + 4) == 16 * Pow2(k)
  {
    assert Pow2(k + 2) == 4 * Pow2(k) && Pow2(k + 4) == 4 * Pow2(k + 2);
  }

  lemma Pow2At36()
    ensures Pow2(36) == 0x10_0000_0000 && Pow2(40) == 16 * Pow2(36)
  {
    hide Pow2;
    assert Pow2(0) == 1 by { Pow2Zero(); }
    Pow2Add4(0);
    Pow2Add4(4);
    Pow2Add4(8);
    Pow2Add4(12);
    Pow2Add4(16);
    Pow2Add4(20);
    Pow2Add4(24);
    Pow2Add4(28);
    Pow2Add4(32);
    Pow2Add4(36);
  }

  lemma Pow2Zero()
    ensures Pow2(0) == 1
  {
  }

  lemma LowBits(x: nat, i: nat)
    requires i < 12
    ensures Bit(x % 4096, i) == Bit(x, i)
  {
    Pow2Values();
    LowMaskValues(x);
    AndBit(x, 4095, i);
    ComplementBit(0, 12, i);
    ZeroBit(i);
  }

  lemma AlignedHasClearBits(x: nat, i: nat)
    requires x % 4096 == 0 && i < 12
    ensures !Bit(x, i)
  {
    LowBits(x, i);
    ZeroBit(i);
  }

  lemma ClearBitsMeanAligned(x: nat)
    requires forall i: nat | i < 12 :: !Bit(x, i)
    ensures x % 4096 == 0
  {
    Pow2Values();
    forall i: nat | i < 12 ensures Bit(x % 4096, i) == Bit(0, i) {
      LowBits(x, i);
      ZeroBit(i);
    }
    SameBits(x % 4096, 0, 12);
  }

  lemma FrameIsFrame(e: nat)
    ensures IsFrame(Frame(e))
  {
    AndBound(e, ADDR_MASK);
    forall i: nat | i < 12 ensures !Bit(Frame(e), i) {
      AndBit(e, ADDR_MASK, i);
      AddrMaskBit(i);
    }
    ClearBitsMeanAligned(Frame(e));
  }

  /** An entry built as `frame | flag bits` gives the frame and the flag bits back. */
  lemma EntryFields(frame: nat, bits: nat)
    requires IsFrame(frame) && bits < TWO64
    requires forall i: nat | 12 <= i < 52 :: !Bit(bits, i)
    ensures Or(frame, bits) < TWO64 && Frame(Or(frame, bits)) == frame
    ensures Present(Or(frame, bits)) == Bit(bits, 0)
    ensures RightsOf(Or(frame, bits)) == Rights(Bit(bits, 1), Bit(bits, 2), !Bit(bits, 63))
    ensures HighClear(bits) ==> HighClear(Or(frame, bits))
  {
    var e := Or(frame, bits);
    Pow2Values();
    OrBound(frame, bits, 64);
    AndBound(e, ADDR_MASK);
    forall i: nat | i < 64
      ensures Bit(Frame(e), i) == Bit(frame, i)
      ensures Bit(e, i) == if 12 <= i < 52 then Bit(frame, i) else Bit(bits, i)
    {
      AndBit(e, ADDR_MASK, i);
      OrBit(frame, bits, i);
      AddrMaskBit(i);
      if i < 12 { AlignedHasClearBits(frame, i); }
      if i >= 52 { HighBitsClear(frame, 52, i); }
    }
    SameBits(Frame(e), frame, 64);
  }

  lemma MappedEntry(frame: nat, flags: nat)
    requires IsFrame(frame)
    ensures var e := Or(frame, TransformFlags(flags));
      e < TWO64 && Frame(e) == frame && Present(e) == AsksPresent(flags) && RightsOf(e) == Asked(flags)
    ensures HighClear(Or(frame, TransformFlags(flags)))
  {
    EntryFields(frame, TransformFlags(flags));
  }

  lemma PlainEntry(frame: nat)
    requires IsFrame(frame)
    ensures Or(frame, 0) < TWO64 && Frame(Or(frame, 0)) == frame && !Present(Or(frame, 0))
    ensures HighClear(Or(frame, 0))
  {
    forall i: nat ensures !Bit(0, i) { ZeroBit(i); }
    EntryFields(frame, 0);
  }

  /** The zero entry is not present and holds no address. */
  lemma ZeroEntry()
    ensures !Present(0) && Frame(0) == 0 && HighClear(0)
  {
    forall i: nat ensures !Bit(0, i) { ZeroBit(i); }
    AndBound(0, ADDR_MASK);
  }
}

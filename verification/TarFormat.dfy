/**
 The ustar layout that libk/tar.c reads ('ustar Interchange Format' in the pax section of IEEE
 Std 1003.1-2017), as functions on memory: octal size fields, the chain of header blocks, and
 archives as lists of members.
 */
module TarFormat {
  import opened Options
  import opened Words
  import opened Strings

  const BLOCK: nat := 512
  const NAME_LENGTH: nat := 100
  const SIZE_FIELD: nat := 124
  const SIZE_DIGITS: nat := 11
  const TYPE_FIELD: nat := 156
  const U32: nat := 0x1_0000_0000

  // ---------------------------------------------------------------------- octal numbers

  /** `c - '0'`, which is negative for bytes below '0'. */
  function DigitValue(c: byte): int {
    var x: int := c;
    x - 48
  }

  /** The number a digit string denotes in base eight; any byte counts as its offset from '0'. */
  function Octal(s: seq<byte>): int {
    if s == [] then 0 else 8 * Octal(s[..|s| - 1]) + DigitValue(s[|s| - 1])
  }

  /** n as w octal digits. */
  function OctalDigits(n: nat, w: nat): (s: seq<byte>)
    ensures |s| == w
  {
    if w == 0 then [] else OctalDigits(n / 8, w - 1) + [48 + n % 8]
  }

  function Pow8(w: nat): nat { if w == 0 then 1 else 8 * Pow8(w - 1) }

  lemma {:induction false} OctalRoundTrip(n: nat, w: nat)
    requires n < Pow8(w)
    ensures Octal(OctalDigits(n, w)) == n
  {
    if w > 0 {
      OctalRoundTrip(n / 8, w - 1);
      var s := OctalDigits(n, w);
      assert s[..|s| - 1] == OctalDigits(n / 8, w - 1);
    }
  }

  /** What parse_size returns for a size field: a 32-bit number. */
  function SizeAt(m: seq<byte>, header: nat): (n: nat)
    requires header + SIZE_FIELD + SIZE_DIGITS <= |m|
    ensures n < U32
  {
    Octal(m[header + SIZE_FIELD..header + SIZE_FIELD + SIZE_DIGITS]) % U32
  }

  /** parse_size inverts the 11-digit encoding exactly for sizes below 2^32. */
  lemma ParseSizeInvertsIff(n: nat)
    requires n < Pow8(SIZE_DIGITS)
    ensures Octal(OctalDigits(n, SIZE_DIGITS)) % U32 == n <==> n < U32
  {
    hide Octal, OctalDigits;
    OctalRoundTrip(n, SIZE_DIGITS);
  }

  lemma Pow8Of11()
    ensures Pow8(SIZE_DIGITS) == 2 * U32
  {
    assert Pow8(5) == 0x8000 && Pow8(10) == 0x4000_0000;
  }

  // ------------------------------------------------------------------ the header chain

  /** The distance from a header to the next one. */
  function Stride(size: nat): (s: nat)
    ensures s >= BLOCK
  {
    (size / BLOCK + 1) * BLOCK + (if size % BLOCK != 0 then BLOCK else 0)
  }

  /** A header, and its data rounded up to whole blocks. */
  lemma StrideIsPadded(size: nat)
    ensures Stride(size) % BLOCK == 0 && BLOCK + size <= Stride(size) < BLOCK + size + BLOCK
  {
  }

  /**
   The headers that parse_tar finds from offset o on. It stops at a header whose name is empty,
   or whose offset has reached the file size; None if it would read at or above `limit`.
   */
  function Headers(m: seq<byte>, base: nat, fileSize: nat, o: nat, limit: nat): Option<seq<nat>>
    requires limit <= |m|
    decreases fileSize - o
  {
    if base + o >= limit then None
    else if m[base + o] == 0 || o >= fileSize then Some([])
    else if base + o + BLOCK > limit then None
    else
      match Headers(m, base, fileSize, o + Stride(SizeAt(m, base + o)), limit)
      case None => None
      case Some(rest) => Some([base + o] + rest)
  }

  lemma {:induction false} HeadersFrame(m: seq<byte>, m': seq<byte>, base: nat, fileSize: nat, o: nat, limit: nat)
    requires limit <= |m| && |m'| == |m| && forall a | base <= a < limit :: m'[a] == m[a]
    ensures Headers(m', base, fileSize, o, limit) == Headers(m, base, fileSize, o, limit)
    decreases fileSize - o
  {
    if base + o < limit && !(m[base + o] == 0 || o >= fileSize) && base + o + BLOCK <= limit {
      SizeFrame(m, m', base + o);
      HeadersFrame(m, m', base, fileSize, o + Stride(SizeAt(m, base + o)), limit);
    }
  }

  lemma SizeFrame(m: seq<byte>, m': seq<byte>, header: nat)
    requires header + BLOCK <= |m| && |m'| == |m| && forall a | header <= a < header + BLOCK :: m'[a] == m[a]
    ensures SizeAt(m', header) == SizeAt(m, header)
  {
    assert m'[header + SIZE_FIELD..header + SIZE_FIELD + SIZE_DIGITS]
        == m[header + SIZE_FIELD..header + SIZE_FIELD + SIZE_DIGITS];
  }

  /** A memory of this size has room for so many header blocks. */
  lemma {:induction false} HeadersCount(m: seq<byte>, base: nat, fileSize: nat, o: nat, limit: nat)
    requires limit <= |m| && Headers(m, base, fileSize, o, limit).Some?
    ensures base + o + BLOCK * |Headers(m, base, fileSize, o, limit).value| <= limit
    decreases fileSize - o
  {
    if !(m[base + o] == 0 || o >= fileSize) {
      HeadersCount(m, base, fileSize, o + Stride(SizeAt(m, base + o)), limit);
    }
  }

  // -------------------------------------------------------------------------- archives

  datatype Member = Member(name: seq<byte>, data: seq<byte>) {
    predicate Valid() { 0 < |name| < NAME_LENGTH && NoZero(name) && |data| < U32 }
  }

  /** The filename field at address a holds exactly this name. */
  predicate NameIs(m: seq<byte>, a: nat, name: seq<byte>)
    requires a + |name| < |m|
  {
    m[a..a + |name|] == name && m[a + |name|] == 0
  }

  /** A header block for the member at address a, followed by its data. */
  ghost predicate MemberAt(m: seq<byte>, a: nat, w: Member) {
    && w.Valid() && a + BLOCK + |w.data| <= |m|
    && NameIs(m, a, w.name)
    && m[a + SIZE_FIELD..a + SIZE_FIELD + SIZE_DIGITS] == OctalDigits(|w.data|, SIZE_DIGITS)
    && m[a + BLOCK..a + BLOCK + |w.data|] == w.data
  }

  /** The members ws lie one after the other from offset o on, and the archive ends there. */
  ghost predicate ArchiveAt(m: seq<byte>, base: nat, fileSize: nat, o: nat, limit: nat, ws: seq<Member>)
    decreases ws
  {
    if ws == [] then base + o < limit <= |m| && (m[base + o] == 0 || o >= fileSize)
    else
      && o < fileSize && base + o + BLOCK <= limit <= |m| && MemberAt(m, base + o, ws[0])
      && ArchiveAt(m, base, fileSize, o + Stride(|ws[0].data|), limit, ws[1..])
  }

  /** Where the headers of ws are. */
  function Offsets(base: nat, o: nat, ws: seq<Member>): (s: seq<nat>)
    ensures |s| == |ws|
    decreases ws
  {
    if ws == [] then [] else [base + o] + Offsets(base, o + Stride(|ws[0].data|), ws[1..])
  }

  lemma MemberSize(m: seq<byte>, a: nat, w: Member)
    requires MemberAt(m, a, w)
    ensures SizeAt(m, a) == |w.data| && m[a] != 0
  {
    hide Octal, OctalDigits, Pow8;
    Pow8Of11();
    OctalRoundTrip(|w.data|, SIZE_DIGITS);
    assert m[a] == w.name[0] by { assert m[a..a + |w.name|][0] == m[a]; }
    assert w.name[0] in w.name;
  }

  /** Round trip: parsing an archive gives the header of every member, in order. */
  lemma {:induction false} ParsingFindsTheMembers(m: seq<byte>, base: nat, fileSize: nat, o: nat, limit: nat,
                                                  ws: seq<Member>)
    requires ArchiveAt(m, base, fileSize, o, limit, ws)
    ensures limit <= |m| && Headers(m, base, fileSize, o, limit) == Some(Offsets(base, o, ws))
    decreases ws
  {
    hide MemberAt, SizeAt, Stride;
    if ws != [] {
      MemberSize(m, base + o, ws[0]);
      ParsingFindsTheMembers(m, base, fileSize, o + Stride(|ws[0].data|), limit, ws[1..]);
    }
  }

  lemma {:induction false} MembersInPlace(m: seq<byte>, base: nat, fileSize: nat, o: nat, limit: nat,
                                          ws: seq<Member>, i: nat)
    requires ArchiveAt(m, base, fileSize, o, limit, ws) && i < |ws|
    ensures base + o <= Offsets(base, o, ws)[i] && Offsets(base, o, ws)[i] + BLOCK <= limit <= |m|
    ensures MemberAt(m, Offsets(base, o, ws)[i], ws[i])
    decreases ws
  {
    hide MemberAt, Stride;
    if i > 0 { MembersInPlace(m, base, fileSize, o + Stride(|ws[0].data|), limit, ws[1..], i - 1); }
  }

  /** The data of every member ends below the limit. */
  lemma {:induction false} DataBelowLimit(m: seq<byte>, base: nat, fileSize: nat, o: nat, limit: nat,
                                          ws: seq<Member>, i: nat)
    requires ArchiveAt(m, base, fileSize, o, limit, ws) && i < |ws|
    ensures base + o <= Offsets(base, o, ws)[i] && Offsets(base, o, ws)[i] + BLOCK + |ws[i].data| <= limit
    decreases ws
  {
    hide MemberAt, Stride;
    StrideIsPadded(|ws[0].data|);
    if i > 0 {
      DataBelowLimit(m, base, fileSize, o + Stride(|ws[0].data|), limit, ws[1..], i - 1);
    } else if |ws| > 1 {
      DataBelowLimit(m, base, fileSize, o + Stride(|ws[0].data|), limit, ws[1..], 0);
    }
  }

  /** Two names that both end at a terminator are equal when they match the same field. */
  lemma NamesMatch(m: seq<byte>, a: nat, w: Member, name: seq<byte>)
    requires MemberAt(m, a, w) && NoZero(name) && a + |name| < |m|
    ensures NameIs(m, a, name) <==> name == w.name
  {
    hide OctalDigits;
    if NameIs(m, a, name) {
      if |name| < |w.name| { NameByte(m, a, w.name, |name|); }
      if |w.name| < |name| { NameByte(m, a, name, |w.name|); }
    }
  }

  lemma NameByte(m: seq<byte>, a: nat, name: seq<byte>, i: nat)
    requires a + |name| < |m| && NameIs(m, a, name) && NoZero(name) && i < |name|
    ensures m[a + i] == name[i] && m[a + i] != 0
  {
    assert m[a..a + |name|][i] == m[a + i];
    assert name[i] in name;
  }

  /** Every address in hs has more than `extra` bytes of memory from it on. */
  predicate AllWithin(hs: seq<nat>, extra: nat, length: nat) {
    forall i | 0 <= i < |hs| :: hs[i] + extra < length
  }

  /** The first of the headers hs whose filename is name. */
  function FirstNamed(m: seq<byte>, hs: seq<nat>, name: seq<byte>): Option<nat>
    requires AllWithin(hs, |name|, |m|)
  {
    if hs == [] then None
    else if NameIs(m, hs[0], name) then Some(hs[0])
    else FirstNamed(m, hs[1..], name)
  }

  /** The position of the first member of this name. */
  function Find(ws: seq<Member>, name: seq<byte>): (r: Option<nat>)
    ensures r.Some? ==> r.value < |ws| && ws[r.value].name == name
    ensures r.Some? ==> forall i | 0 <= i < r.value :: ws[i].name != name
    ensures r.None? ==> forall w | w in ws :: w.name != name
  {
    if ws == [] then None
    else if ws[0].name == name then Some(0)
    else match Find(ws[1..], name)
      case None => None
      case Some(i) => Some(i + 1)
  }

  /** Searching the headers of an archive finds the first member of the given name. */
  lemma {:induction false} SearchFindsTheMember(m: seq<byte>, base: nat, fileSize: nat, o: nat, limit: nat,
                                                ws: seq<Member>, n: nat, name: seq<byte>)
    requires ArchiveAt(m, base, fileSize, o, limit, ws) && NoZero(name) && n <= |ws|
    requires AllWithin(Offsets(base, o, ws), |name|, |m|)
    ensures FirstNamed(m, Offsets(base, o, ws)[..n], name)
         == match Find(ws[..n], name) case None => None case Some(i) => Some(Offsets(base, o, ws)[i])
    decreases n
  {
    hide MemberAt, NameIs, Stride, FirstNamed, Find, Offsets, ArchiveAt, AllWithin;
    var hs := Offsets(base, o, ws);
    WithinPrefix(hs, |name|, |m|, n);
    if n == 0 {
      NoneNamed(m, hs[..0], name, ws[..0]);
    } else {
      var next := o + Stride(|ws[0].data|);
      ArchiveTail(m, base, fileSize, o, limit, ws);
      WithinTail(hs, |name|, |m|);
      WithinPrefix(hs[1..], |name|, |m|, n - 1);
      NamesMatch(m, base + o, ws[0], name);
      SearchFindsTheMember(m, base, fileSize, next, limit, ws[1..], n - 1, name);
      PrefixTail(hs, n);
      PrefixTail(ws, n);
      FirstNamedStep(m, hs[..n], name);
      FindStep(ws[..n], name);
    }
  }

  lemma PrefixTail<T>(s: seq<T>, n: nat)
    requires 0 < n <= |s|
    ensures s[..n][0] == s[0] && s[..n][1..] == s[1..][..n - 1]
  {
  }

  lemma WithinPrefix(hs: seq<nat>, extra: nat, length: nat, n: nat)
    requires AllWithin(hs, extra, length) && n <= |hs|
    ensures AllWithin(hs[..n], extra, length)
  {
  }

  lemma WithinTail(hs: seq<nat>, extra: nat, length: nat)
    requires AllWithin(hs, extra, length) && hs != []
    ensures AllWithin(hs[1..], extra, length) && hs[0] + extra < length
  {
    assert forall i | 0 <= i < |hs[1..]| :: hs[1..][i] == hs[i + 1];
  }

  lemma NoneNamed(m: seq<byte>, hs: seq<nat>, name: seq<byte>, ws: seq<Member>)
    requires hs == [] && ws == []
    ensures FirstNamed(m, hs, name) == None && Find(ws, name) == None
  {
  }

  lemma FirstNamedStep(m: seq<byte>, hs: seq<nat>, name: seq<byte>)
    requires AllWithin(hs, |name|, |m|) && hs != []
    ensures hs[0] + |name| < |m| && AllWithin(hs[1..], |name|, |m|)
    ensures FirstNamed(m, hs, name) == if NameIs(m, hs[0], name) then Some(hs[0]) else FirstNamed(m, hs[1..], name)
  {
    hide NameIs;
  }

  lemma FindStep(ws: seq<Member>, name: seq<byte>)
    requires ws != []
    ensures Find(ws, name) == if ws[0].name == name then Some(0)
      else match Find(ws[1..], name) case None => None case Some(i) => Some(i + 1)
  {
  }

  lemma ArchiveTail(m: seq<byte>, base: nat, fileSize: nat, o: nat, limit: nat, ws: seq<Member>)
    requires ArchiveAt(m, base, fileSize, o, limit, ws) && ws != []
    ensures MemberAt(m, base + o, ws[0])
    ensures ArchiveAt(m, base, fileSize, o + Stride(|ws[0].data|), limit, ws[1..])
    ensures |Offsets(base, o, ws)| > 0 && Offsets(base, o, ws)[0] == base + o
    ensures Offsets(base, o, ws)[1..] == Offsets(base, o + Stride(|ws[0].data|), ws[1..])
  {
    hide MemberAt, Stride;
  }

  predicate DistinctNames(ws: seq<Member>) {
    forall i, j | 0 <= i < j < |ws| :: ws[i].name != ws[j].name
  }

  lemma LastNotFound(ws: seq<Member>, n: nat)
    requires DistinctNames(ws) && n < |ws|
    ensures Find(ws[..n], ws[|ws| - 1].name).None?
  {
    var name := ws[|ws| - 1].name;
    assert forall i | 0 <= i < n :: ws[..n][i] == ws[i] && ws[i].name != name;
  }

  /**
   The count is a byte: find_file searches the first `|ws| % 256` headers. Every member of an
   archive with distinct names is found under its name exactly when there are fewer than 256.
   */
  lemma AllFoundIff(ws: seq<Member>)
    requires DistinctNames(ws)
    ensures (forall w | w in ws :: Find(ws[..|ws| % 256], w.name).Some?) <==> |ws| < 256
  {
    var n := |ws| % 256;
    if |ws| < 256 {
      assert ws[..n] == ws;
    } else {
      LastNotFound(ws, n);
      assert ws[|ws| - 1] in ws;
    }
  }

  // ---------------------------------------------------------------- writing member data

  /** Member data with the bytes from off on replaced. */
  function Patched(data: seq<byte>, off: nat, bytes: seq<byte>): seq<byte>
    requires off + |bytes| <= |data|
  {
    data[..off] + bytes + data[off + |bytes|..]
  }

  lemma PatchedLength(data: seq<byte>, off: nat, bytes: seq<byte>)
    requires off + |bytes| <= |data|
    ensures |Patched(data, off, bytes)| == |data|
  {
  }

  /** m with bytes stored from address a on. */
  predicate StoredAt(m: seq<byte>, m': seq<byte>, a: nat, bytes: seq<byte>) {
    && a + |bytes| <= |m| && |m'| == |m|
    && m'[a..a + |bytes|] == bytes
    && forall i | 0 <= i < |m| && !(a <= i < a + |bytes|) :: m'[i] == m[i]
  }

  lemma MemberPatched(m: seq<byte>, m': seq<byte>, a: nat, w: Member, off: nat, bytes: seq<byte>)
    requires MemberAt(m, a, w) && off + |bytes| <= |w.data|
    requires StoredAt(m, m', a + BLOCK + off, bytes)
    ensures MemberAt(m', a, w.(data := Patched(w.data, off, bytes)))
  {
    hide OctalDigits;
    var data' := Patched(w.data, off, bytes);
    assert m'[a..a + |w.name|] == m[a..a + |w.name|];
    assert m'[a + SIZE_FIELD..a + SIZE_FIELD + SIZE_DIGITS] == m[a + SIZE_FIELD..a + SIZE_FIELD + SIZE_DIGITS];
    var d := a + BLOCK;
    forall i | 0 <= i < |data'| ensures m'[d..d + |data'|][i] == data'[i] {
      assert m[d..d + |w.data|][i] == w.data[i];
      if off <= i < off + |bytes| {
        assert m'[d + off..d + off + |bytes|][i - off] == bytes[i - off];
      }
    }
  }

  lemma MemberElsewhere(m: seq<byte>, m': seq<byte>, b: nat, w: Member, a: nat, bytes: seq<byte>)
    requires MemberAt(m, b, w) && StoredAt(m, m', a, bytes)
    requires a + |bytes| <= b || b + BLOCK + |w.data| <= a
    ensures MemberAt(m', b, w)
  {
    hide OctalDigits;
    assert m'[b..b + |w.name|] == m[b..b + |w.name|];
    assert m'[b + SIZE_FIELD..b + SIZE_FIELD + SIZE_DIGITS] == m[b + SIZE_FIELD..b + SIZE_FIELD + SIZE_DIGITS];
    assert m'[b + BLOCK..b + BLOCK + |w.data|] == m[b + BLOCK..b + BLOCK + |w.data|];
  }

  lemma StoredLength(m: seq<byte>, m': seq<byte>, a: nat, bytes: seq<byte>)
    requires StoredAt(m, m', a, bytes)
    ensures |m'| == |m| && forall i | 0 <= i < |m| && !(a <= i < a + |bytes|) :: m'[i] == m[i]
  {
  }

  /** A store below the archive leaves it as it is. */
  lemma {:induction false} ArchiveAbove(m: seq<byte>, m': seq<byte>, base: nat, fileSize: nat, o: nat, limit: nat,
                                        ws: seq<Member>, a: nat, bytes: seq<byte>)
    requires ArchiveAt(m, base, fileSize, o, limit, ws) && StoredAt(m, m', a, bytes) && a + |bytes| <= base + o
    ensures ArchiveAt(m', base, fileSize, o, limit, ws)
    decreases ws
  {
    hide MemberAt, StoredAt, Stride;
    StoredLength(m, m', a, bytes);
    if ws != [] {
      MemberElsewhere(m, m', base + o, ws[0], a, bytes);
      ArchiveAbove(m, m', base, fileSize, o + Stride(|ws[0].data|), limit, ws[1..], a, bytes);
    }
  }

  /**
   Storing inside the data of member i patches that member and changes nothing else of the
   archive: the same names, the same header list, the same data of all other members.
   */
  lemma {:induction false} WritePatchesOneMember(m: seq<byte>, m': seq<byte>, base: nat, fileSize: nat, o: nat,
                                                 limit: nat,
                                                 ws: seq<Member>, i: nat, off: nat, bytes: seq<byte>)
    requires ArchiveAt(m, base, fileSize, o, limit, ws) && i < |ws| && off + |bytes| <= |ws[i].data|
    requires StoredAt(m, m', Offsets(base, o, ws)[i] + BLOCK + off, bytes)
    ensures var ws' := ws[i := ws[i].(data := Patched(ws[i].data, off, bytes))];
      ArchiveAt(m', base, fileSize, o, limit, ws') && Offsets(base, o, ws') == Offsets(base, o, ws)
    decreases ws
  {
    hide MemberAt, StoredAt, Stride, Patched;
    var w' := ws[i].(data := Patched(ws[i].data, off, bytes));
    var a, next := Offsets(base, o, ws)[i] + BLOCK + off, o + Stride(|ws[0].data|);
    StrideIsPadded(|ws[0].data|);
    StoredLength(m, m', a, bytes);
    PatchedLength(ws[i].data, off, bytes);
    if i == 0 {
      MemberPatched(m, m', base + o, ws[0], off, bytes);
      ArchiveAbove(m, m', base, fileSize, next, limit, ws[1..], a, bytes);
      assert ws[0 := w'][1..] == ws[1..];
    } else {
      MembersInPlace(m, base, fileSize, next, limit, ws[1..], i - 1);
      MemberElsewhere(m, m', base + o, ws[0], a, bytes);
      WritePatchesOneMember(m, m', base, fileSize, next, limit, ws[1..], i - 1, off, bytes);
      assert ws[i := w'][1..] == ws[1..][i - 1 := w'];
    }
  }

  // -------------------------------------------------------------------------- encoding

  function Fill(n: nat): (s: seq<byte>)
    ensures |s| == n && forall i | 0 <= i < n :: s[i] == 0
  {
    if n == 0 then [] else Fill(n - 1) + [0]
  }

  /** A header block and the padded data, with the fields that parse_tar does not read left zero. */
  function EncodeMember(w: Member): (s: seq<byte>)
    requires w.Valid()
    ensures |s| == Stride(|w.data|)
  {
    StrideIsPadded(|w.data|);
    w.name + Fill(SIZE_FIELD - |w.name|) + OctalDigits(|w.data|, SIZE_DIGITS)
      + Fill(BLOCK - SIZE_FIELD - SIZE_DIGITS) + w.data + Fill(Stride(|w.data|) - BLOCK - |w.data|)
  }

  function Encode(ws: seq<Member>): seq<byte>
    requires forall w | w in ws :: w.Valid()
  {
    if ws == [] then Fill(2 * BLOCK) else EncodeMember(ws[0]) + Encode(ws[1..])
  }

  lemma EncodedMember(pre: seq<byte>, w: Member, post: seq<byte>)
    requires w.Valid()
    ensures MemberAt(pre + EncodeMember(w) + post, |pre|, w)
  {
    hide OctalDigits, Stride;
    StrideIsPadded(|w.data|);
    var m, a := pre + EncodeMember(w) + post, |pre|;
    var h := w.name + Fill(SIZE_FIELD - |w.name|);
    assert m[a..a + |w.name|] == w.name;
    assert m[a + |w.name|] == 0;
    assert m[a + SIZE_FIELD..a + SIZE_FIELD + SIZE_DIGITS] == OctalDigits(|w.data|, SIZE_DIGITS);
    assert m[a + BLOCK..a + BLOCK + |w.data|] == w.data;
  }

  lemma {:induction false} EncodedArchive(pre: seq<byte>, ws: seq<Member>)
    requires forall w | w in ws :: w.Valid()
    ensures var m := pre + Encode(ws); ArchiveAt(m, 0, |m|, |pre|, |m|, ws)
    decreases |ws|
  {
    hide EncodeMember, MemberAt, Stride;
    var m := pre + Encode(ws);
    if ws != [] {
      EncodedMember(pre, ws[0], Encode(ws[1..]));
      StrideIsPadded(|ws[0].data|);
      EncodedArchive(pre + EncodeMember(ws[0]), ws[1..]);
      assert pre + EncodeMember(ws[0]) + Encode(ws[1..]) == m;
    }
  }

  /** Round trip from members to bytes and back to header offsets. */
  lemma ParseInvertsEncode(ws: seq<Member>)
    requires forall w | w in ws :: w.Valid()
    ensures var m := Encode(ws); Headers(m, 0, |m|, 0, |m|) == Some(Offsets(0, 0, ws))
  {
    EncodedArchive([], ws);
    assert [] + Encode(ws) == Encode(ws);
    ParsingFindsTheMembers(Encode(ws), 0, |Encode(ws)|, 0, |Encode(ws)|, ws);
  }
}

/**
 The string routines of libk/string.c that others rest on: strspn, strcspn, strcmp and the
 stateful tokenizer strtok (sections 7.21.5.6, 7.21.5.3, 7.21.4.2 and 7.21.5.8 of ISO C99).
 A string in memory starts at p and ends at the zero byte e. A delimiter list is the value of
 a C string, without its terminator.
 */
module Strings {
  import opened Options
  import opened Words

  ghost predicate CString(m: seq<byte>, p: nat, e: nat) {
    p <= e < |m| && m[e] == 0 && forall i | p <= i < e :: m[i] != 0
  }

  predicate NoZero(s: seq<byte>) { forall c | c in s :: c != 0 }

  // ------------------------------------------------------------------------ the loops

  /** The first position from p on, up to e, that holds no delimiter. */
  function Skip(m: seq<byte>, p: nat, e: nat, d: seq<byte>): (r: nat)
    requires p <= e <= |m|
    ensures p <= r <= e && (forall i | p <= i < r :: m[i] in d) && (r < e ==> m[r] !in d)
    decreases e - p
  {
    if p < e && m[p] in d then Skip(m, p + 1, e, d) else p
  }

  /** The first position from p on, up to e, that holds a delimiter. */
  function Scan(m: seq<byte>, p: nat, e: nat, d: seq<byte>): (r: nat)
    requires p <= e <= |m|
    ensures p <= r <= e && (forall i | p <= i < r :: m[i] !in d) && (r < e ==> m[r] in d)
    decreases e - p
  {
    if p < e && m[p] !in d then Scan(m, p + 1, e, d) else p
  }

  method Strspn(buf: array<byte>, s1: nat, s2: seq<byte>, ghost e: nat) returns (n: nat)
    requires CString(buf[..], s1, e)
    ensures s1 + n == Skip(buf[..], s1, e, s2)
  {
    var sc1 := s1;
    while buf[sc1] != 0
      invariant s1 <= sc1 <= e && Skip(buf[..], sc1, e, s2) == Skip(buf[..], s1, e, s2)
      decreases e - sc1
    {
      var sc2 := 0;
      while true
        invariant 0 <= sc2 <= |s2| && buf[sc1] !in s2[..sc2]
        decreases |s2| - sc2
      {
        if sc2 == |s2| {
          assert s2[..sc2] == s2;
          return sc1 - s1;
        } else if buf[sc1] == s2[sc2] {
          break;
        }
        sc2 := sc2 + 1;
      }
      assert buf[..][sc1] in s2;
      sc1 := sc1 + 1;
    }
    return sc1 - s1;
  }

  method Strcspn(buf: array<byte>, s1: nat, s2: seq<byte>, ghost e: nat) returns (n: nat)
    requires CString(buf[..], s1, e)
    ensures s1 + n == Scan(buf[..], s1, e, s2)
  {
    var sc1 := s1;
    while buf[sc1] != 0
      invariant s1 <= sc1 <= e && Scan(buf[..], sc1, e, s2) == Scan(buf[..], s1, e, s2)
      decreases e - sc1
    {
      var sc2 := 0;
      while sc2 < |s2|
        invariant 0 <= sc2 <= |s2| && buf[sc1] !in s2[..sc2]
      {
        if buf[sc1] == s2[sc2] {
          assert buf[..][sc1] in s2;
          return sc1 - s1;
        }
        sc2 := sc2 + 1;
      }
      assert s2[..sc2] == s2;
      sc1 := sc1 + 1;
    }
    return sc1 - s1;
  }

  /** strcmp of the string at a with the value of another string. */
  method Strcmp(buf: array<byte>, a: nat, name: seq<byte>) returns (r: int)
    requires a + |name| < buf.Length && NoZero(name)
    ensures r == 0 <==> buf[a..a + |name|] == name && buf[a + |name|] == 0
    ensures r != 0 ==> exists i | 0 <= i <= |name| ::
      && buf[a..a + i] == name[..i]
      && (var c := if i < |name| then name[i] else 0; buf[a + i] != c && r == if buf[a + i] < c then -1 else 1)
  {
    var i := 0;
    while buf[a + i] == if i < |name| then name[i] else 0
      invariant 0 <= i <= |name| && buf[a..a + i] == name[..i]
      decreases |name| - i
    {
      assert i < |name| ==> name[i] in name;
      if buf[a + i] == 0 {
        assert i == |name|;
        return 0;
      }
      ghost var same := buf[a..a + i];
      assert buf[a..a + i + 1] == same + [buf[a + i]];
      i := i + 1;
    }
    assert i < |name| ==> buf[a..a + |name|][i] == buf[a + i];
    return if buf[a + i] < (if i < |name| then name[i] else 0) then -1 else 1;
  }

  // ---------------------------------------------------------------------------- strtok

  /** Where the static pointer ssave points: into the buffer, or at the literal "". */
  datatype Saved = EmptyLiteral | At(pos: nat)

  /** A token as a stretch of the buffer. */
  datatype Token = Token(begin: nat, end: nat)

  /** What one call returns and leaves behind, for a string that starts at p and ends at e. */
  datatype Outcome = Outcome(token: Option<Token>, memory: seq<byte>, saved: Saved)

  function Call(m: seq<byte>, p: nat, e: nat, d: seq<byte>): Outcome
    requires p <= e < |m|
  {
    var b := Skip(m, p, e, d);
    if b == e then Outcome(None, m, EmptyLiteral)
    else
      var t := Scan(m, b, e, d);
      if t < e then Outcome(Some(Token(b, t)), m[t := 0], At(t + 1))
      else Outcome(Some(Token(b, t)), m, At(t))
  }

  class Tokenizer {
    var ssave: Saved

    constructor ()
      ensures ssave == EmptyLiteral
    {
      ssave := EmptyLiteral;
    }

    /** strtok(s1, s2); None for s1 is a call with a null pointer. */
    method Strtok(buf: array<byte>, s1: Option<nat>, s2: seq<byte>, ghost e: nat) returns (r: Option<nat>)
      requires s1.Some? ==> CString(buf[..], s1.value, e)
      requires s1.None? && ssave.At? ==> CString(buf[..], ssave.pos, e)
      modifies this, buf
      ensures s1.None? && old(ssave).EmptyLiteral? ==> r == None && ssave == EmptyLiteral && buf[..] == old(buf[..])
      ensures s1.Some? || old(ssave).At? ==>
        var start := if s1.Some? then s1.value else old(ssave).pos;
        var o := Call(old(buf[..]), start, e, s2);
        && buf[..] == o.memory && ssave == o.saved
        && r == if o.token.Some? then Some(o.token.value.begin) else None
    {
      if s1.None? && ssave == EmptyLiteral {
        // strspn("", s2) is 0 and the byte there is the terminator
        ssave := EmptyLiteral;
        return None;
      }
      var sbegin := if s1.Some? then s1.value else ssave.pos;
      var spn := Strspn(buf, sbegin, s2, e);
      sbegin := sbegin + spn;
      if buf[sbegin] == 0 {
        ssave := EmptyLiteral;
        return None;
      }
      var cspn := Strcspn(buf, sbegin, s2, e);
      var send := sbegin + cspn;
      if buf[send] != 0 {
        buf[send] := 0;
        send := send + 1;
      }
      ssave := At(send);
      return Some(sbegin);
    }
  }

  // --------------------------------------------------------------- whole tokenizations

  /** Every token ends inside a memory of this length. */
  predicate Inside(ts: seq<Token>, length: nat) { forall i | 0 <= i < |ts| :: ts[i].end < length }

  /** The tokens of the string between p and e, as repeated calls find them. */
  function Tokens(m: seq<byte>, p: nat, e: nat, d: seq<byte>): (ts: seq<Token>)
    requires p <= e < |m|
    ensures Inside(ts, |m|)
    decreases e - p, 1
  {
    var b := Skip(m, p, e, d);
    if b == e then [] else [Token(b, Scan(m, b, e, d))] + TokensAfter(m, Scan(m, b, e, d), e, d)
  }

  /** Those after one that ends at t. */
  function TokensAfter(m: seq<byte>, t: nat, e: nat, d: seq<byte>): (ts: seq<Token>)
    requires t <= e < |m|
    ensures Inside(ts, |m|)
    decreases e - t, 0
  {
    if t < e then Tokens(m, t + 1, e, d) else []
  }

  /** A maximal non-empty delimiter-free stretch of the string between p and e. */
  ghost predicate IsWord(m: seq<byte>, p: nat, e: nat, d: seq<byte>, w: Token)
    requires p <= e < |m|
  {
    && p <= w.begin < w.end <= e
    && (forall i | w.begin <= i < w.end :: m[i] !in d)
    && (w.begin == p || m[w.begin - 1] in d)
    && (w.end == e || m[w.end] in d)
  }

  /** The tokens are exactly the words of the string, in order. */
  lemma {:induction false} TokensAreTheWords(m: seq<byte>, p: nat, e: nat, d: seq<byte>)
    requires p <= e < |m|
    ensures forall w :: w in Tokens(m, p, e, d) <==> IsWord(m, p, e, d, w)
    ensures forall i, j | 0 <= i < j < |Tokens(m, p, e, d)| :: Tokens(m, p, e, d)[i].end < Tokens(m, p, e, d)[j].begin
    decreases e - p
  {
    hide Skip, Scan, Tokens, IsWord;
    var ts := Tokens(m, p, e, d);
    TokensEmptyIff(m, p, e, d);
    if ts == [] {
      forall w ensures !IsWord(m, p, e, d, w) { NoWords(m, p, e, d, w); }
    } else {
      FirstToken(m, p, e, d);
      var t := ts[0].end;
      if t < e { TokensAreTheWords(m, t + 1, e, d); }
      assert ts == [ts[0]] + ts[1..];
      forall w ensures w in ts[1..] <==> IsWord(m, p, e, d, w) && w != ts[0] {
        WordsAfterFirst(m, p, e, d, w);
      }
      FirstIsWord(m, p, e, d);
      forall j | 0 < j < |ts| ensures t < ts[j].begin {
        assert ts[j] in ts[1..];
        WordBounds(m, t + 1, e, d, ts[j]);
      }
      forall i, j | 0 <= i < j < |ts| ensures ts[i].end < ts[j].begin {
        if i > 0 { assert ts[i] == ts[1..][i - 1] && ts[j] == ts[1..][j - 1]; }
      }
    }
  }

  lemma WordBounds(m: seq<byte>, p: nat, e: nat, d: seq<byte>, w: Token)
    requires p <= e < |m| && IsWord(m, p, e, d, w)
    ensures p <= w.begin < w.end <= e
  {
  }

  lemma FirstIsWord(m: seq<byte>, p: nat, e: nat, d: seq<byte>)
    requires p <= e < |m| && Tokens(m, p, e, d) != []
    ensures IsWord(m, p, e, d, Tokens(m, p, e, d)[0])
  {
  }

  lemma NoWords(m: seq<byte>, p: nat, e: nat, d: seq<byte>, w: Token)
    requires p <= e < |m| && Skip(m, p, e, d) == e
    ensures !IsWord(m, p, e, d, w)
  {
    assert p <= w.begin < e ==> m[w.begin] in d;
  }

  lemma ScanAt(m: seq<byte>, b: nat, e: nat, d: seq<byte>, i: nat)
    requires b <= e < |m|
    ensures b <= i < Scan(m, b, e, d) ==> m[i] !in d
  {
  }

  lemma WordAt(m: seq<byte>, p: nat, e: nat, d: seq<byte>, w: Token, i: nat)
    requires p <= e < |m| && IsWord(m, p, e, d, w) && w.begin <= i < w.end
    ensures m[i] !in d
  {
  }

  /** A word that starts no later than the end of the first token is the first token. */
  lemma FirstWord(m: seq<byte>, p: nat, e: nat, d: seq<byte>, w: Token)
    requires p <= e < |m| && Skip(m, p, e, d) < e && IsWord(m, p, e, d, w)
    requires Skip(m, p, e, d) <= w.begin <= Scan(m, Skip(m, p, e, d), e, d)
    ensures w == Token(Skip(m, p, e, d), Scan(m, Skip(m, p, e, d), e, d))
  {
    var b := Skip(m, p, e, d);
    var t := Scan(m, b, e, d);
    ScanAt(m, b, e, d, w.end);
    ScanAt(m, b, e, d, w.begin);
    ScanAt(m, b, e, d, if w.begin > b then w.begin - 1 else b);
    WordAt(m, p, e, d, w, if w.end > t then t else w.begin);
  }

  /** A word other than the first one starts after the delimiter that ends the first one. */
  lemma WordsAfterFirst(m: seq<byte>, p: nat, e: nat, d: seq<byte>, w: Token)
    requires p <= e < |m| && Skip(m, p, e, d) < e
    ensures var b := Skip(m, p, e, d);
      var t := Scan(m, b, e, d);
      IsWord(m, p, e, d, w) && w != Token(b, t) <==> t < e && IsWord(m, t + 1, e, d, w)
  {
    var b := Skip(m, p, e, d);
    var t := Scan(m, b, e, d);
    assert IsWord(m, p, e, d, Token(b, t));
    if IsWord(m, p, e, d, w) {
      assert m[w.begin] !in d && m[w.end - 1] !in d;
      assert w.begin >= b;
      if w.begin <= t {
        FirstWord(m, p, e, d, w);
      }
    }
  }

  /** m0 with the terminators that the first n tokens get. */
  function Cut(m0: seq<byte>, ts: seq<Token>, n: nat): (m: seq<byte>)
    requires n <= |ts| && Inside(ts, |m0|)
    ensures |m| == |m0|
  {
    if n == 0 then m0 else Cut(m0, ts, n - 1)[ts[n - 1].end := 0]
  }

  /** Where the n-th call continues. */
  function Resume(p: nat, e: nat, ts: seq<Token>, n: nat): nat
    requires n <= |ts|
  {
    if n == 0 then p else if ts[n - 1].end < e then ts[n - 1].end + 1 else e
  }

  lemma {:induction false} CutFrom(m0: seq<byte>, ts: seq<Token>, n: nat, i: nat)
    requires n <= |ts| && Inside(ts, |m0|) && i < |m0|
    ensures Cut(m0, ts, n)[i] == if (exists j | 0 <= j < n :: ts[j].end == i) then 0 else m0[i]
  {
    if n > 0 { CutFrom(m0, ts, n - 1, i); }
  }

  /** Skip, Scan and Tokens depend on the bytes from p to e only. */
  lemma {:induction false} SameFrom(m: seq<byte>, m': seq<byte>, p: nat, e: nat, d: seq<byte>)
    requires p <= e < |m| && |m'| == |m| && forall i | p <= i < e :: m'[i] == m[i]
    ensures Skip(m', p, e, d) == Skip(m, p, e, d) && Scan(m', p, e, d) == Scan(m, p, e, d)
    decreases e - p
  {
    if p < e { SameFrom(m, m', p + 1, e, d); }
  }

  lemma FirstToken(m: seq<byte>, p: nat, e: nat, d: seq<byte>)
    requires p <= e < |m| && Tokens(m, p, e, d) != []
    ensures var ts := Tokens(m, p, e, d);
      && ts[0] == Token(Skip(m, p, e, d), Scan(m, Skip(m, p, e, d), e, d)) && p <= ts[0].end <= e
      && (ts[0].end < e ==> ts[1..] == Tokens(m, ts[0].end + 1, e, d))
      && (ts[0].end == e ==> |ts| == 1)
  {
    hide Tokens, TokensAfter, Skip, Scan;
    TokensUnfold(m, p, e, d);
    var b := Skip(m, p, e, d);
    var t := Scan(m, b, e, d);
    var rest := TokensAfter(m, t, e, d);
    AfterUnfold(m, t, e, d);
    assert Tokens(m, p, e, d) == [Token(b, t)] + rest;
    assert ([Token(b, t)] + rest)[1..] == rest;
  }

  lemma TokensUnfold(m: seq<byte>, p: nat, e: nat, d: seq<byte>)
    requires p <= e < |m|
    ensures var b := Skip(m, p, e, d);
      if b == e then Tokens(m, p, e, d) == []
      else Tokens(m, p, e, d) == [Token(b, Scan(m, b, e, d))] + TokensAfter(m, Scan(m, b, e, d), e, d)
  {
    hide Skip, Scan, TokensAfter, Inside;
  }

  lemma AfterUnfold(m: seq<byte>, t: nat, e: nat, d: seq<byte>)
    requires t <= e < |m|
    ensures TokensAfter(m, t, e, d) == if t < e then Tokens(m, t + 1, e, d) else []
  {
    hide Tokens;
  }

  /** The tokens from where the n-th call continues are the remaining ones. */
  lemma {:induction false} TokensSuffix(m: seq<byte>, p: nat, e: nat, d: seq<byte>, n: nat)
    requires p <= e < |m| && n <= |Tokens(m, p, e, d)|
    ensures Resume(p, e, Tokens(m, p, e, d), n) <= e
    ensures Tokens(m, Resume(p, e, Tokens(m, p, e, d), n), e, d) == Tokens(m, p, e, d)[n..]
    decreases e - p
  {
    hide Tokens;
    var ts := Tokens(m, p, e, d);
    if n > 0 {
      FirstToken(m, p, e, d);
      var t := ts[0].end;
      if t < e {
        TokensSuffix(m, t + 1, e, d, n - 1);
        assert ts[1..][n - 1..] == ts[n..];
      } else {
        NoTokensAtEnd(m, e, d);
      }
    }
  }

  lemma NoTokensAtEnd(m: seq<byte>, e: nat, d: seq<byte>)
    requires e < |m|
    ensures Tokens(m, e, e, d) == []
  {
  }

  /**
   strtok(s, d) followed by strtok(NULL, d): the n-th call returns the n-th word of the
   original string, terminated in place, and memory differs from the original only in the
   terminators of the words returned so far; the call after the last word returns NULL, and
   so do all later ones, which find the empty literal.
   */
  lemma CallsYieldTheWords(m0: seq<byte>, p: nat, e: nat, d: seq<byte>, n: nat)
    requires CString(m0, p, e) && n <= |Tokens(m0, p, e, d)|
    ensures
      var ts := Tokens(m0, p, e, d);
      var m, start := Cut(m0, ts, n), Resume(p, e, ts, n);
      && CString(m, start, e)
      && (n == |ts| ==> Call(m, start, e, d) == Outcome(None, m, EmptyLiteral))
      && (n < |ts| ==>
            && Call(m, start, e, d).token == Some(ts[n])
            && Call(m, start, e, d).memory == Cut(m0, ts, n + 1) && Cut(m0, ts, n + 1)[ts[n].end] == 0
            && Call(m, start, e, d).saved == At(Resume(p, e, ts, n + 1)))
  {
    hide Tokens, IsWord;
    var ts := Tokens(m0, p, e, d);
    var m, start := Cut(m0, ts, n), Resume(p, e, ts, n);
    TokensSuffix(m0, p, e, d, n);
    TokensAreTheWords(m0, p, e, d);
    forall i | start <= i <= e ensures m[i] == m0[i] {
      CutFrom(m0, ts, n, i);
      EarlierEnds(m0, p, e, d, n);
    }
    ResumeForward(m0, p, e, d, n);
    var b := Skip(m0, start, e, d);
    SameFrom(m0, m, start, e, d);
    TokensEmptyIff(m0, start, e, d);
    if b < e {
      SameFrom(m0, m, b, e, d);
      FirstToken(m0, start, e, d);
      assert ts[n..][0] == ts[n];
      if ts[n].end == e {
        assert m[e] == 0 && m[e := 0] == m;
      }
    }
  }

  lemma TokensEmptyIff(m: seq<byte>, p: nat, e: nat, d: seq<byte>)
    requires p <= e < |m|
    ensures Tokens(m, p, e, d) == [] <==> Skip(m, p, e, d) == e
  {
  }

  lemma EarlierEnds(m: seq<byte>, p: nat, e: nat, d: seq<byte>, n: nat)
    requires CString(m, p, e) && n <= |Tokens(m, p, e, d)|
    ensures forall j | 0 <= j < n ::
      Tokens(m, p, e, d)[j].end < Resume(p, e, Tokens(m, p, e, d), n) || Tokens(m, p, e, d)[j].end == e
  {
    TokensAreTheWords(m, p, e, d);
    var ts := Tokens(m, p, e, d);
    forall j | 0 <= j < n ensures ts[j].end < Resume(p, e, ts, n) || ts[j].end == e {
      assert ts[j] in ts && ts[n - 1] in ts;
      if j < n - 1 { assert ts[j].end < ts[n - 1].begin; }
    }
  }

  lemma ResumeForward(m: seq<byte>, p: nat, e: nat, d: seq<byte>, n: nat)
    requires CString(m, p, e) && n <= |Tokens(m, p, e, d)|
    ensures p <= Resume(p, e, Tokens(m, p, e, d), n) <= e
  {
    TokensAreTheWords(m, p, e, d);
    if n > 0 { assert Tokens(m, p, e, d)[n - 1] in Tokens(m, p, e, d); }
  }
}

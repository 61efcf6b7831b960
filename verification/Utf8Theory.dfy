/**
  What the UTF-8 cursor and the reversal do on well-formed strings, and on exactly which others.
 */
module Utf8Theory {

  import opened Wrappers
  import opened Words
  import opened Utf8

  // ---------------------------------------------------------------------------------------------
  // Characters in a string
  // ---------------------------------------------------------------------------------------------

  lemma {:induction false} FlattenSplits(gs: seq<seq<byte>>, hs: seq<seq<byte>>)
    ensures Flatten(gs + hs) == Flatten(gs) + Flatten(hs)
  {
    if gs == [] {
      assert gs + hs == hs;
    } else {
      assert (gs + hs)[1..] == gs[1..] + hs;
      FlattenSplits(gs[1..], hs);
      assert gs[0] + (Flatten(gs[1..]) + Flatten(hs)) == (gs[0] + Flatten(gs[1..])) + Flatten(hs);
    }
  }

  lemma FlattenOne(g: seq<byte>)
    ensures Flatten([g]) == g
  {
    assert [g][1..] == [];
  }

  lemma CharacterThenWellFormed(g: seq<byte>, t: seq<byte>)
    requires IsCharacter(g) && WellFormed(t)
    ensures WellFormed(g + t)
  {
    var gs :| AreCharacters(gs) && Flatten(gs) == t;
    FlattenSplits([g], gs);
    FlattenOne(g);
    assert AreCharacters([g] + gs);
  }

  lemma WellFormedThenCharacter(s: seq<byte>, g: seq<byte>)
    requires WellFormed(s) && IsCharacter(g)
    ensures WellFormed(s + g)
  {
    var gs :| AreCharacters(gs) && Flatten(gs) == s;
    FlattenSplits(gs, [g]);
    FlattenOne(g);
    assert AreCharacters(gs + [g]);
  }

  lemma EmptyIsWellFormed()
    ensures WellFormed([])
  {
    assert AreCharacters([]) && Flatten([]) == [];
  }

  lemma FirstCharacter(s: seq<byte>) returns (n: nat)
    requires WellFormed(s) && s != []
    ensures 0 < n <= |s| && IsCharacter(s[..n]) && WellFormed(s[n..]) && LeadSize(s[0]) == Some(n)
  {
    var gs :| AreCharacters(gs) && Flatten(gs) == s;
    n := |gs[0]|;
    assert IsCharacter(gs[0]) && AreCharacters(gs[1..]);
    assert s[..n] == gs[0] && s[n..] == Flatten(gs[1..]);
  }

  lemma LastCharacter(s: seq<byte>) returns (k: nat)
    requires WellFormed(s) && s != []
    ensures k < |s| && WellFormed(s[..k]) && IsCharacter(s[k..])
  {
    var gs :| AreCharacters(gs) && Flatten(gs) == s;
    var m := |gs| - 1;
    assert gs[..m] + [gs[m]] == gs;
    FlattenSplits(gs[..m], [gs[m]]);
    FlattenOne(gs[m]);
    k := |Flatten(gs[..m])|;
    assert IsCharacter(gs[m]) && AreCharacters(gs[..m]);
    assert s[..k] == Flatten(gs[..m]) && s[k..] == gs[m];
  }

  lemma PrevOfCharacter(s: seq<byte>, k: nat, i: nat)
    requires k <= i <= |s| && IsCharacter(s[k..i])
    ensures PrevCharSize(s, i) == Some(i - k)
  {
    LeadIsNoContinuation(s[k]);
    assert forall j :: k < j < i ==> IsContinuation(s[j]) && s[j] == s[k..i][j - k];
  }

  // ---------------------------------------------------------------------------------------------
  // The cursor goes both ways
  // ---------------------------------------------------------------------------------------------

  /** At the end, or at a character with whole characters before and behind. */
  ghost predicate AtCharacter(s: text, c: Cursor) {
    c == END
    || (c.i < |s| && NextCharSize(s, c.i) == Some(c.n) && c.n <= 4 && WellFormed(s[..c.i]) && WellFormed(s[c.i..]))
  }

  lemma BeginIsAtCharacter(s: text)
    requires WellFormed(s)
    ensures Begin(s).Some? && AtCharacter(s, Begin(s).value)
  {
    EmptyIsWellFormed();
    if s != [] {
      var _ := FirstCharacter(s);
      assert s[..0] == [] && s[0..] == s;
    }
  }

  /** The boundary behind a character at a boundary is one too. */
  lemma BoundaryBehind(s: text, i: nat) returns (to: nat)
    requires i < |s| && WellFormed(s[..i]) && WellFormed(s[i..])
    ensures i < to <= |s| && NextCharSize(s, i) == Some(to - i) && PrevCharSize(s, to) == Some(to - i)
    ensures WellFormed(s[..to]) && WellFormed(s[to..])
    ensures to < |s| ==> NextCharSize(s, to).Some?
  {
    var n := FirstCharacter(s[i..]);
    to := i + n;
    assert s[i..][..n] == s[i..to] && s[i..][n..] == s[to..];
    assert s[..to] == s[..i] + s[i..to];
    WellFormedThenCharacter(s[..i], s[i..to]);
    PrevOfCharacter(s, i, to);
    if to < |s| {
      var _ := FirstCharacter(s[to..]);
    }
  }

  lemma BoundaryBefore(s: text, i: nat) returns (from: nat)
    requires 0 < i <= |s| && WellFormed(s[..i]) && WellFormed(s[i..])
    ensures from < i && NextCharSize(s, from) == Some(i - from) && PrevCharSize(s, i) == Some(i - from)
    ensures WellFormed(s[..from]) && WellFormed(s[from..])
  {
    from := LastCharacter(s[..i]);
    assert s[..i][from..] == s[from..i] && s[..i][..from] == s[..from];
    PrevOfCharacter(s, from, i);
    assert s[from..] == s[from..i] + s[i..];
    CharacterThenWellFormed(s[from..i], s[i..]);
  }

  lemma IncrementIsUndone(s: text, c: Cursor)
    requires s != [] && WellFormed(s) && AtCharacter(s, c)
    ensures Forward(s, c).Some? && AtCharacter(s, Forward(s, c).value)
    ensures Backward(s, Forward(s, c).value) == Some(c)
  {
    if c == END {
      BeginIsAtCharacter(s);
    } else {
      var to := BoundaryBehind(s, c.i);
      assert Forward(s, c) == if to == |s| then Some(END) else Some(Cursor(to, NextCharSize(s, to).value));
    }
  }

  lemma DecrementIsUndone(s: text, c: Cursor)
    requires s != [] && WellFormed(s) && AtCharacter(s, c)
    ensures Backward(s, c).Some? && AtCharacter(s, Backward(s, c).value)
    ensures Forward(s, Backward(s, c).value) == Some(c)
  {
    if c.i == 0 {
      BeginIsAtCharacter(s);
    } else {
      var from := if c == END then |s| else c.i;
      assert s[..|s|] == s && s[|s|..] == [];
      EmptyIsWellFormed();
      var _ := BoundaryBefore(s, from);
    }
  }

  /** An increment never throws from here on, and a decrement takes back each one. */
  ghost predicate WalksBothWays(s: text, c: Cursor)
    decreases |s| - c.i
  {
    c == END
    || (c.i < |s| && 0 < c.n <= 4 && Forward(s, c).Some?
        && Backward(s, Forward(s, c).value) == Some(c)
        && WalksBothWays(s, Forward(s, c).value))
  }

  lemma {:induction false} WalkingBothWaysIsWellFormed(s: text, c: Cursor)
    requires c.i < |s| && NextCharSize(s, c.i) == Some(c.n) && WalksBothWays(s, c)
    ensures WellFormed(s[c.i..])
    decreases |s| - c.i
  {
    var d := Forward(s, c).value;
    var to := if d == END then |s| else d.i;
    var g := s[c.i..to];
    assert PrevCharSize(s, to) == Some(c.n) && to - c.n == c.i;
    assert forall j :: 0 < j < |g| ==> IsContinuation(g[j]);
    assert IsCharacter(g);
    if d == END {
      assert s[to..] == [];
      EmptyIsWellFormed();
    } else {
      WalkingBothWaysIsWellFormed(s, d);
    }
    CharacterThenWellFormed(g, s[to..]);
    SuffixSplits(s, c.i, to);
  }

  lemma SuffixSplits(s: seq<byte>, i: nat, j: nat)
    requires i <= j <= |s|
    ensures s[i..] == s[i..j] + s[j..]
  {}

  lemma {:induction false} WellFormedWalksBothWays(s: text, c: Cursor)
    requires s != [] && WellFormed(s) && AtCharacter(s, c)
    ensures WalksBothWays(s, c)
    decreases |s| - c.i
  {
    if c != END {
      IncrementIsUndone(s, c);
      WellFormedWalksBothWays(s, Forward(s, c).value);
    }
  }

  /** The cursor can be trusted in both directions on exactly the well-formed strings. */
  lemma WalksBothWaysIffWellFormed(s: text)
    requires s != []
    ensures WellFormed(s) <==> Begin(s).Some? && WalksBothWays(s, Begin(s).value)
  {
    if WellFormed(s) {
      BeginIsAtCharacter(s);
      WellFormedWalksBothWays(s, Begin(s).value);
    }
    if Begin(s).Some? && WalksBothWays(s, Begin(s).value) {
      WalkingBothWaysIsWellFormed(s, Begin(s).value);
      assert s[0..] == s;
    }
  }

  // ---------------------------------------------------------------------------------------------
  // A whole walk
  // ---------------------------------------------------------------------------------------------

  /** What dereferencing yields on the way from `c` to the end, or `None` when an increment throws. */
  function Walk(s: text, c: Cursor): Option<seq<seq<byte>>>
    requires c == END || (c.i < |s| && 0 < c.n <= 4)
    decreases |s| - c.i
  {
    if c == END then Some([])
    else if Forward(s, c).None? then None
    else
      var rest := Walk(s, Forward(s, c).value);
      if rest.None? then None else Some([Piece(s, c)] + rest.value)
  }

  /** Whatever the bytes, a walk that reaches the end has yielded all of them in order. */
  lemma {:induction false} WalkYieldsEveryByte(s: text, c: Cursor)
    requires c == END || (c.i < |s| && 0 < c.n <= 4)
    requires Walk(s, c).Some?
    ensures Flatten(Walk(s, c).value) == if c == END then [] else s[c.i..]
    decreases |s| - c.i
  {
    if c != END {
      var d := Forward(s, c).value;
      WalkYieldsEveryByte(s, d);
      FlattenSplits([Piece(s, c)], Walk(s, d).value);
      FlattenOne(Piece(s, c));
    }
  }

  lemma SuffixTakenApart(s: seq<byte>, i: nat, g: seq<byte>, rest: seq<byte>)
    requires i <= |s| && s[i..] == g + rest
    ensures var to := i + |g|; to <= |s| && s[i..to] == g && s[to..] == rest
  {
    var to := i + |g|;
    assert |s[i..]| == |g| + |rest|;
    assert s[i..][..|g|] == g && s[i..][|g|..] == rest;
    assert s[i..to] == s[i..][..|g|] && s[to..] == s[i..][|g|..];
  }

  lemma {:induction false} WalkYieldsCharactersFrom(s: text, gs: seq<seq<byte>>, c: Cursor)
    requires AreCharacters(gs)
    requires if gs == [] then c == END else c.i < |s| && c.n == |gs[0]| && s[c.i..] == Flatten(gs)
    ensures c == END || 0 < c.n <= 4
    ensures Walk(s, c) == Some(gs)
    decreases |gs|
  {
    if gs != [] {
      var hs := gs[1..];
      assert IsCharacter(gs[0]);
      assert AreCharacters(hs);
      var to := c.i + c.n;
      SuffixTakenApart(s, c.i, gs[0], Flatten(hs));
      if hs != [] {
        assert IsCharacter(hs[0]);
        assert s[to] == hs[0][0];
      }
      WalkYieldsCharactersFrom(s, hs, Forward(s, c).value);
      assert [gs[0]] + hs == gs;
    }
  }

  /** On a well-formed string the increments visit exactly its characters. */
  lemma WalkYieldsCharacters(s: text, gs: seq<seq<byte>>)
    requires AreCharacters(gs) && Flatten(gs) == s
    ensures Begin(s).Some? && (Begin(s).value == END || 0 < Begin(s).value.n <= 4)
    ensures Walk(s, Begin(s).value) == Some(gs)
  {
    if gs != [] {
      assert IsCharacter(gs[0]) && s[0] == gs[0][0];
      assert s[0..] == s;
    }
    WalkYieldsCharactersFrom(s, gs, Begin(s).value);
  }

  // ---------------------------------------------------------------------------------------------
  // Reversal
  // ---------------------------------------------------------------------------------------------

  ghost predicate StartsCharacter(s: seq<byte>) {
    s == [] || !IsContinuation(s[0])
  }

  lemma {:induction false} LastStartIsUnique(s: seq<byte>, k: nat)
    requires k < |s| && !IsContinuation(s[k])
    requires forall j :: k < j < |s| ==> IsContinuation(s[j])
    ensures LastStart(s) == k
  {
    var l := LastStart(s);
    if l < k {
      assert false;
    }
  }

  lemma LastStartSplits(s: seq<byte>, t: seq<byte>)
    requires t != [] && !IsContinuation(t[0])
    ensures LastStart(s + t) == |s| + LastStart(t)
  {
    var k, u := LastStart(t), s + t;
    assert u[|s| + k] == t[k];
    assert forall j :: |s| + k < j < |u| ==> u[j] == t[j - |s|];
    LastStartIsUnique(u, |s| + k);
  }

  lemma {:induction false} ReversedSplits(s: seq<byte>, t: seq<byte>)
    requires StartsCharacter(t)
    ensures Reversed(s + t) == Reversed(t) + Reversed(s)
    decreases |t|
  {
    if t == [] {
      assert s + t == s;
    } else {
      LastStartSplits(s, t);
      var k, u := LastStart(t), s + t;
      var g, b := t[k..], t[..k];
      assert u[|s| + k..] == g && u[..|s| + k] == s + b;
      ReversedSplits(s, b);
      assert g + (Reversed(b) + Reversed(s)) == (g + Reversed(b)) + Reversed(s);
    }
  }

  lemma {:induction false} ReversedStartsCharacter(s: seq<byte>)
    requires StartsCharacter(s)
    ensures StartsCharacter(Reversed(s))
    ensures s != [] ==> Reversed(s)[0] == s[LastStart(s)]
  {
    if s != [] {
      assert !IsContinuation(s[LastStart(s)]);
    }
  }

  lemma ReversedCharacter(g: seq<byte>)
    requires g != [] && !IsContinuation(g[0]) && forall j :: 0 < j < |g| ==> IsContinuation(g[j])
    ensures Reversed(g) == g
  {
    LastStartIsUnique(g, 0);
    assert g[..0] == [] && g[0..] == g;
  }

  lemma {:induction false} ReversedTwice(s: seq<byte>)
    requires StartsCharacter(s)
    ensures Reversed(Reversed(s)) == s
  {
    if s != [] {
      var k := LastStart(s);
      var g, t := s[k..], s[..k];
      assert !IsContinuation(g[0]);
      ReversedTwice(t);
      ReversedBehind(g, t);
      assert t + g == s;
    }
  }

  lemma ReversedBehind(g: seq<byte>, t: seq<byte>)
    requires g != [] && !IsContinuation(g[0]) && (forall j :: 0 < j < |g| ==> IsContinuation(g[j]))
    requires StartsCharacter(t)
    ensures Reversed(g + Reversed(t)) == Reversed(Reversed(t)) + g
  {
    ReversedStartsCharacter(t);
    ReversedSplits(g, Reversed(t));
    ReversedCharacter(g);
  }

  lemma LongRunIsBehind(g: seq<byte>, t: seq<byte>)
    requires 0 < |g| <= 4 && !IsContinuation(g[0]) && StartsCharacter(t)
    ensures HasLongRun(g + t) ==> HasLongRun(t)
  {
    var u := g + t;
    if HasLongRun(u) {
      var k :| LongRunAt(u, k);
      assert u[0] == g[0] && (t != [] ==> u[|g|] == t[0]);
      if k < |g| {
        assert false;
      }
      assert forall j :: k - |g| <= j < k - |g| + 4 ==> t[j] == u[j + |g|];
      assert LongRunAt(t, k - |g|);
    }
  }

  lemma LongRunOfPrefix(s: seq<byte>, k: nat)
    requires k <= |s|
    ensures HasLongRun(s[..k]) ==> HasLongRun(s)
  {
    if HasLongRun(s[..k]) {
      var j :| LongRunAt(s[..k], j);
      assert forall i :: j <= i < j + 4 ==> s[..k][i] == s[i];
      assert LongRunAt(s, j);
    }
  }

  lemma {:induction false} ReversedHasNoLongRun(s: seq<byte>)
    requires StartsCharacter(s) && !HasLongRun(s)
    ensures !HasLongRun(Reversed(s))
  {
    if s != [] {
      var k := LastStart(s);
      var g, t := s[k..], s[..k];
      assert !IsContinuation(g[0]);
      if |g| > 4 {
        assert LongRunAt(s, k + 1);
      }
      LongRunOfPrefix(s, k);
      ReversedHasNoLongRun(t);
      ReversedStartsCharacter(t);
      LongRunIsBehind(g, Reversed(t));
    }
  }

  /**
    Reversing a string that can be reversed loses nothing, and the result can be reversed again exactly when the last
    character begins with a proper lead byte.
   */
  lemma ReverseTwiceIffLastLeadIsProper(s: seq<byte>)
    requires CanReverse(s)
    ensures Reversed(Reversed(s)) == s
    ensures CanReverse(Reversed(s)) <==> s == [] || LeadSize(s[LastStart(s)]).Some?
  {
    if s != [] {
      LeadIsNoContinuation(s[0]);
      ReversedTwice(s);
      ReversedStartsCharacter(s);
      ReversedHasNoLongRun(s);
    }
  }

  lemma {:induction false} CharactersHaveNoLongRun(gs: seq<seq<byte>>)
    requires AreCharacters(gs)
    ensures StartsCharacter(Flatten(gs)) && !HasLongRun(Flatten(gs))
    ensures gs != [] ==> LeadSize(Flatten(gs)[0]).Some?
  {
    if gs != [] {
      assert IsCharacter(gs[0]);
      LeadIsNoContinuation(gs[0][0]);
      CharactersHaveNoLongRun(gs[1..]);
      LongRunIsBehind(gs[0], Flatten(gs[1..]));
    }
  }

  lemma {:induction false} BackwardsKeepsCharacters(gs: seq<seq<byte>>)
    requires AreCharacters(gs)
    ensures AreCharacters(Backwards(gs))
  {
    if gs != [] {
      assert AreCharacters(gs[1..]) && IsCharacter(gs[0]);
      BackwardsKeepsCharacters(gs[1..]);
    }
  }

  lemma {:induction false} ReversedCharacters(gs: seq<seq<byte>>)
    requires AreCharacters(gs)
    ensures Reversed(Flatten(gs)) == Flatten(Backwards(gs))
  {
    if gs != [] {
      var g, hs := gs[0], gs[1..];
      assert IsCharacter(g) && AreCharacters(hs);
      LeadIsNoContinuation(g[0]);
      CharactersHaveNoLongRun(hs);
      ReversedSplits(g, Flatten(hs));
      ReversedCharacter(g);
      ReversedCharacters(hs);
      FlattenSplits(Backwards(hs), [g]);
      FlattenOne(g);
    }
  }

  /**
    A well-formed string can be reversed; the result is what the increments visit, backwards, is well formed, and
    reverses to the original.
   */
  lemma ReverseOfWellFormed(s: text)
    requires WellFormed(s)
    ensures CanReverse(s) && CanReverse(Reversed(s)) && WellFormed(Reversed(s)) && Reversed(Reversed(s)) == s
    ensures Begin(s).Some? && (Begin(s).value == END || 0 < Begin(s).value.n <= 4)
    ensures Walk(s, Begin(s).value).Some? && Reversed(s) == Flatten(Backwards(Walk(s, Begin(s).value).value))
  {
    var gs :| AreCharacters(gs) && Flatten(gs) == s;
    WalkYieldsCharacters(s, gs);
    ReversedCharacters(gs);
    BackwardsKeepsCharacters(gs);
    CharactersHaveNoLongRun(gs);
    CharactersHaveNoLongRun(Backwards(gs));
    ReversedTwice(s);
    assert gs != [] ==> Flatten(Backwards(gs)) != [] by {
      assert |Reversed(s)| == |s|;
    }
    assert s != [] ==> Backwards(gs) != [];
  }

  // ---------------------------------------------------------------------------------------------
  // Code points
  // ---------------------------------------------------------------------------------------------

  type codepoint = x: int | 0 <= x < 0x11_0000

  /** The table in section 3 of RFC 3629. */
  function Encode(c: codepoint): seq<byte> {
    if c < 0x80 then [c]
    else if c < 0x800 then [0xC0 + c / 0x40, 0x80 + c % 0x40]
    else if c < 0x1_0000 then [0xE0 + c / 0x1000, 0x80 + c / 0x40 % 0x40, 0x80 + c % 0x40]
    else [0xF0 + c / 0x4_0000, 0x80 + c / 0x1000 % 0x40, 0x80 + c / 0x40 % 0x40, 0x80 + c % 0x40]
  }

  function EncodeEach(cs: seq<codepoint>): (gs: seq<seq<byte>>)
    ensures |gs| == |cs| && forall i :: 0 <= i < |cs| ==> gs[i] == Encode(cs[i])
  {
    seq(|cs|, i requires 0 <= i < |cs| => Encode(cs[i]))
  }

  function EncodeAll(cs: seq<codepoint>): seq<byte> {
    Flatten(EncodeEach(cs))
  }

  function InReverse(cs: seq<codepoint>): (r: seq<codepoint>)
    ensures |r| == |cs| && forall i :: 0 <= i < |cs| ==> r[i] == cs[|cs| - 1 - i]
  {
    seq(|cs|, i requires 0 <= i < |cs| => cs[|cs| - 1 - i])
  }

  /** The lead bytes, by range; continuation bytes and those from 0xF8 on are none. */
  lemma LeadsAre(c: byte)
    ensures LeadSize(c) == Some(1) <==> c < 0x80
    ensures LeadSize(c) == Some(2) <==> 0xC0 <= c < 0xE0
    ensures LeadSize(c) == Some(3) <==> 0xE0 <= c < 0xF0
    ensures LeadSize(c) == Some(4) <==> 0xF0 <= c < 0xF8
    ensures LeadSize(c) == None <==> 0x80 <= c < 0xC0 || 0xF8 <= c
    ensures IsContinuation(c) <==> 0x80 <= c < 0xC0
  {}

  /** On the empty string the range is empty, an increment from the end lands on the terminator, and a decrement throws. */
  lemma EmptyTextCursor()
    ensures Begin([]) == Some(END)
    ensures Forward([], END) == Some(Cursor(0, 1)) && Forward([], Cursor(0, 1)) == Some(END)
    ensures Backward([], END) == None && Backward([], Cursor(0, 1)) == Some(END)
  {}

  /** What the cursor takes for a character includes every code point's encoding. */
  lemma EncodingIsCharacter(c: codepoint)
    ensures IsCharacter(Encode(c))
  {}

  lemma {:induction false} BackwardsAt(gs: seq<seq<byte>>, i: nat)
    requires i < |gs|
    ensures |Backwards(gs)| == |gs| && Backwards(gs)[i] == gs[|gs| - 1 - i]
  {
    if |gs| > 1 {
      BackwardsAt(gs[1..], if i < |gs| - 1 then i else 0);
    }
  }

  /** Text in UTF-8 is reversed code point by code point. */
  lemma ReverseOfCodePoints(cs: seq<codepoint>)
    ensures WellFormed(EncodeAll(cs)) && CanReverse(EncodeAll(cs))
    ensures Reversed(EncodeAll(cs)) == EncodeAll(InReverse(cs))
  {
    var gs := EncodeEach(cs);
    forall i | 0 <= i < |gs|
      ensures IsCharacter(gs[i]) && |Backwards(gs)| == |gs| && Backwards(gs)[i] == EncodeEach(InReverse(cs))[i]
    {
      EncodingIsCharacter(cs[i]);
      BackwardsAt(gs, i);
    }
    CharactersHaveNoLongRun(gs);
    ReversedCharacters(gs);
    assert gs != [] ==> Backwards(gs) == EncodeEach(InReverse(cs));
  }
}

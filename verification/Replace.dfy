/**
  Replacing one string by another inside a third, and trimming.

  A replacement is explained by a split of the string into the pieces between the leftmost, non-overlapping
  occurrences of the match: the result joins the same pieces with the replacement.
 */
module Replace {

  import opened Wrappers
  import opened Words
  import opened Search

  function Join(ps: seq<seq<byte>>, glue: seq<byte>): seq<byte> {
    if ps == [] then []
    else if |ps| == 1 then ps[0]
    else ps[0] + glue + Join(ps[1..], glue)
  }

  /** The match occurs behind each piece but the last and not before, and nowhere in the last. */
  ghost predicate IsSplit(ps: seq<seq<byte>>, match_: seq<byte>) {
    ps != []
    && (forall k, i :: 0 <= k < |ps| - 1 && 0 <= i < |ps[k]| ==> !OccursAt(ps[k] + match_, match_, i))
    && Absent(ps[|ps| - 1], match_)
  }

  ghost predicate Absent(s: seq<byte>, p: seq<byte>) {
    forall i :: 0 <= i ==> !OccursAt(s, p, i)
  }

  function FirstOccurrence(s: seq<byte>, p: seq<byte>, i: nat): (r: Option<nat>)
    requires i <= |s|
    ensures r.None? ==> forall j :: i <= j ==> !OccursAt(s, p, j)
    ensures r.Some? ==> i <= r.value && OccursAt(s, p, r.value) && forall j :: i <= j < r.value ==> !OccursAt(s, p, j)
    decreases |s| - i
  {
    if OccursAt(s, p, i) then Some(i) else if i == |s| then None else FirstOccurrence(s, p, i + 1)
  }

  function Split(s: seq<byte>, match_: seq<byte>): seq<seq<byte>>
    requires match_ != []
  {
    var i := FirstOccurrence(s, match_, 0);
    if i.None? then [s] else [s[..i.value]] + Split(s[i.value + |match_|..], match_)
  }

  /** The bytes one by one, between two empty pieces: an empty match occurs around every byte. */
  function Bytes(s: seq<byte>): seq<seq<byte>> {
    if s == [] then [] else [[s[0]]] + Bytes(s[1..])
  }

  function Pieces(s: seq<byte>, match_: seq<byte>): seq<seq<byte>> {
    if match_ == [] then [[]] + Bytes(s) + [[]] else Split(s, match_)
  }

  function Replaced(s: seq<byte>, match_: seq<byte>, replacement: seq<byte>): seq<byte> {
    Join(Pieces(s, match_), replacement)
  }

  // ---------------------------------------------------------------------------------------------
  // Joining
  // ---------------------------------------------------------------------------------------------

  lemma JoinFirst(p: seq<byte>, ps: seq<seq<byte>>, glue: seq<byte>)
    requires ps != []
    ensures Join([p] + ps, glue) == p + glue + Join(ps, glue)
  {
    assert ([p] + ps)[1..] == ps;
  }

  lemma {:induction false} JoinLast(ps: seq<seq<byte>>, p: seq<byte>, glue: seq<byte>)
    requires ps != []
    ensures Join(ps + [p], glue) == Join(ps, glue) + glue + p
  {
    var qs := ps + [p];
    if |ps| == 1 {
      assert qs[1..] == [p];
    } else {
      assert qs[1..] == ps[1..] + [p];
      JoinLast(ps[1..], p, glue);
      var a, b := ps[0] + glue, Join(ps[1..], glue);
      assert a + (b + glue + p) == (a + b) + glue + p;
    }
  }

  lemma {:induction false} JoinLength(ps: seq<seq<byte>>, glue: seq<byte>, other: seq<byte>)
    requires ps != []
    ensures |Join(ps, other)| == |Join(ps, glue)| + (|ps| - 1) * (|other| - |glue|)
  {
    if |ps| > 1 {
      JoinLength(ps[1..], glue, other);
      var k, d := |ps| - 2, |other| - |glue|;
      assert (k + 1) * d == k * d + d;
    }
  }

  lemma {:induction false} BytesAppend(s: seq<byte>, c: byte)
    ensures Bytes(s + [c]) == Bytes(s) + [[c]]
    ensures |Bytes(s)| == |s|
  {
    if s != [] {
      assert (s + [c])[1..] == s[1..] + [c];
      BytesAppend(s[1..], c);
    }
  }

  lemma FirstOfThree(ps: seq<seq<byte>>, qs: seq<seq<byte>>, rs: seq<seq<byte>>)
    ensures ps + qs + rs == ps + (qs + rs)
  {}

  lemma {:induction false} JoinBytes(s: seq<byte>)
    ensures Join(Bytes(s) + [[]], []) == s
  {
    if s != [] {
      var bs := Bytes(s[1..]);
      JoinBytes(s[1..]);
      FirstOfThree([[s[0]]], bs, [[]]);
      JoinFirst([s[0]], bs + [[]], []);
      assert [s[0]] + [] + s[1..] == s;
    }
  }

  // ---------------------------------------------------------------------------------------------
  // Splitting
  // ---------------------------------------------------------------------------------------------

  lemma OccurrencesUpTo(p: seq<byte>, m: seq<byte>, rest: seq<byte>, i: nat)
    requires i < |p|
    ensures OccursAt(p + m + rest, m, i) <==> OccursAt(p + m, m, i)
  {
    assert i + |m| <= |p + m| && (p + m + rest)[i..i + |m|] == (p + m)[i..i + |m|];
  }

  lemma PieceBefore(p: seq<byte>, qs: seq<seq<byte>>, m: seq<byte>)
    requires m != [] && IsSplit(qs, m)
    requires forall i :: 0 <= i < |p| ==> !OccursAt(p + m, m, i)
    ensures IsSplit([p] + qs, m)
  {}

  lemma {:induction false} SplitIsASplit(s: seq<byte>, m: seq<byte>)
    requires m != []
    ensures IsSplit(Split(s, m), m) && Join(Split(s, m), m) == s
  {
    var f := FirstOccurrence(s, m, 0);
    if f.Some? {
      var p, rest := s[..f.value], s[f.value + |m|..];
      assert s == p + m + rest;
      SplitIsASplit(rest, m);
      JoinFirst(p, Split(rest, m), m);
      forall i | 0 <= i < |p|
        ensures !OccursAt(p + m, m, i)
      {
        OccurrencesUpTo(p, m, rest, i);
      }
      PieceBefore(p, Split(rest, m), m);
    }
  }

  lemma FirstPiece(ps: seq<seq<byte>>, m: seq<byte>)
    requires m != [] && IsSplit(ps, m)
    ensures FirstOccurrence(Join(ps, m), m, 0) == if |ps| == 1 then None else Some(|ps[0]|)
  {
    var s := Join(ps, m);
    if |ps| > 1 {
      var p, rest := ps[0], Join(ps[1..], m);
      assert s == p + m + rest && s[|p|..|p| + |m|] == m;
      assert OccursAt(s, m, |p|);
      forall i | 0 <= i < |p|
        ensures !OccursAt(s, m, i)
      {
        OccurrencesUpTo(p, m, rest, i);
      }
    }
  }

  /** There is only one split: the match decides where the pieces end. */
  lemma {:induction false} SplitIsUnique(ps: seq<seq<byte>>, m: seq<byte>)
    requires m != [] && IsSplit(ps, m)
    ensures Split(Join(ps, m), m) == ps
  {
    FirstPiece(ps, m);
    if |ps| == 1 {
      assert ps == [ps[0]];
    } else {
      var p, qs := ps[0], ps[1..];
      TailIsASplit(ps, m);
      SplitIsUnique(qs, m);
      SplitBehind(p, m, Join(qs, m));
      assert ps == [p] + qs;
    }
  }

  lemma TailIsASplit(ps: seq<seq<byte>>, m: seq<byte>)
    requires m != [] && IsSplit(ps, m) && |ps| > 1
    ensures IsSplit(ps[1..], m)
  {
    assert forall k :: 0 <= k < |ps| - 1 ==> ps[1..][k] == ps[k + 1];
  }

  lemma SplitBehind(p: seq<byte>, m: seq<byte>, rest: seq<byte>)
    requires m != [] && FirstOccurrence(p + m + rest, m, 0) == Some(|p|)
    ensures Split(p + m + rest, m) == [p] + Split(rest, m)
  {
    var s := p + m + rest;
    assert s[..|p|] == p && s[|p| + |m|..] == rest;
  }

  // ---------------------------------------------------------------------------------------------
  // Replacing
  // ---------------------------------------------------------------------------------------------

  /** The replacement leaves the pieces between the occurrences as they are, whichever way the split is given. */
  lemma ReplacedJoinsTheSplit(ps: seq<seq<byte>>, m: seq<byte>, r: seq<byte>)
    requires m != [] && IsSplit(ps, m)
    ensures Replaced(Join(ps, m), m, r) == Join(ps, r)
  {
    SplitIsUnique(ps, m);
  }

  lemma PiecesJoin(s: seq<byte>, m: seq<byte>)
    ensures Pieces(s, m) != [] && Join(Pieces(s, m), m) == s
    ensures m == [] ==> |Pieces(s, m)| == |s| + 2
  {
    if m == [] {
      JoinBytes(s);
      BytesAppend(s, 0);
      assert [[]] + Bytes(s) + [[]] == [[]] + (Bytes(s) + [[]]);
      JoinFirst([], Bytes(s) + [[]], []);
    } else {
      SplitIsASplit(s, m);
    }
  }

  lemma ReplacingByItselfIsIdentity(s: seq<byte>, m: seq<byte>)
    ensures Replaced(s, m, m) == s
  {
    PiecesJoin(s, m);
  }

  /** Each of the k = |pieces| - 1 occurrences changes the length by the same amount. */
  lemma ReplacedLength(s: seq<byte>, m: seq<byte>, r: seq<byte>)
    ensures |Replaced(s, m, r)| == |s| + (|Pieces(s, m)| - 1) * (|r| - |m|)
    ensures m == [] ==> |Replaced(s, m, r)| == |s| + (|s| + 1) * |r|
  {
    PiecesJoin(s, m);
    JoinLength(Pieces(s, m), m, r);
  }

  /** An empty match: the replacement stands in front of every byte and at the end. */
  lemma EmptyMatchAppends(s: seq<byte>, c: byte, r: seq<byte>)
    ensures Replaced([], [], r) == r
    ensures Replaced(s + [c], [], r) == Replaced(s, [], r) + [c] + r
  {
    EmptyMatchEnds([], r);
    EmptyMatchEnds(s, r);
    EmptyMatchEnds(s + [c], r);
    BytesAppend(s, c);
    JoinLast([[]] + Bytes(s), [c], r);
    assert [[]] + (Bytes(s) + [[c]]) == [[]] + Bytes(s) + [[c]];
  }

  lemma EmptyMatchEnds(s: seq<byte>, r: seq<byte>)
    ensures Replaced(s, [], r) == Join([[]] + Bytes(s), r) + r
  {
    JoinLast([[]] + Bytes(s), [], r);
    assert Join([[]] + Bytes(s), r) + r + [] == Join([[]] + Bytes(s), r) + r;
  }

  /** At `n` the replacement stands, and behind it the `i`-th byte of the string if there is one. */
  ghost predicate GroupAt(t: seq<byte>, s: seq<byte>, r: seq<byte>, i: nat, n: nat) {
    && n + |r| <= |t| && (forall j :: 0 <= j < |r| ==> t[n + j] == r[j])
    && (i < |s| ==> n + |r| < |t| && t[n + |r|] == s[i])
  }

  /** An empty match by position: |s| + 1 groups, |r| + 1 apart, of which the last has no byte. */
  lemma EmptyMatchAt(s: seq<byte>, r: seq<byte>, i: nat)
    requires i <= |s|
    ensures |Replaced(s, [], r)| == |s| * (|r| + 1) + |r|
    ensures GroupAt(Replaced(s, [], r), s, r, i, i * (|r| + 1))
  {
    EmptyMatchGroups(s, r, i);
    GroupStartIsProduct(|s|, |r| + 1);
    GroupStartIsProduct(i, |r| + 1);
  }

  function GroupStart(i: nat, k: nat): nat {
    if i == 0 then 0 else GroupStart(i - 1, k) + k
  }

  lemma {:induction false} GroupStartIsProduct(i: nat, k: nat)
    ensures GroupStart(i, k) == i * k
  {
    if i > 0 {
      GroupStartIsProduct(i - 1, k);
      assert i * k == (i - 1) * k + k;
    }
  }

  lemma {:induction false} EmptyMatchGroups(s: seq<byte>, r: seq<byte>, i: nat)
    requires i <= |s|
    ensures |Replaced(s, [], r)| == GroupStart(|s|, |r| + 1) + |r|
    ensures GroupAt(Replaced(s, [], r), s, r, i, GroupStart(i, |r| + 1))
  {
    if s == [] {
      EmptyMatchAppends([], 0, r);
    } else {
      var before, c := s[..|s| - 1], s[|s| - 1];
      EmptyMatchAppends(before, c, r);
      assert before + [c] == s;
      EmptyMatchGroups(before, r, if i < |s| then i else |before|);
      NextGroup(Replaced(before, [], r), c, before, r, i);
    }
  }

  lemma NextGroup(u: seq<byte>, c: byte, s: seq<byte>, r: seq<byte>, i: nat)
    requires i <= |s| + 1 && |u| == GroupStart(|s|, |r| + 1) + |r|
    requires i <= |s| ==> GroupAt(u, s, r, i, GroupStart(i, |r| + 1))
    ensures |u + [c] + r| == GroupStart(|s| + 1, |r| + 1) + |r|
    ensures GroupAt(u + [c] + r, s + [c], r, i, GroupStart(i, |r| + 1))
  {
    if i <= |s| {
      EarlierGroup(u, c, s, r, i, GroupStart(i, |r| + 1));
    } else {
      LastGroup(u, c, s, r);
    }
  }

  lemma EarlierGroup(u: seq<byte>, c: byte, s: seq<byte>, r: seq<byte>, i: nat, n: nat)
    requires i <= |s| && GroupAt(u, s, r, i, n) && (i == |s| ==> n + |r| == |u|)
    ensures GroupAt(u + [c] + r, s + [c], r, i, n)
  {}

  lemma LastGroup(u: seq<byte>, c: byte, s: seq<byte>, r: seq<byte>)
    ensures GroupAt(u + [c] + r, s + [c], r, |s| + 1, |u| + 1)
  {}

  lemma ReplacedUnchangedIff(s: seq<byte>, m: seq<byte>, r: seq<byte>)
    ensures |Pieces(s, m)| == 1 <==> Absent(s, m)
    ensures Replaced(s, m, r) == s <==> r == m || Absent(s, m)
  {
    if m == [] {
      assert OccursAt(s, m, 0);
      PiecesJoin(s, m);
      ReplacedLength(s, m, r);
      ReplacingByItselfIsIdentity(s, m);
      EmptyReplacementIff(|s|, |r|);
    } else {
      NonemptyMatchUnchangedIff(s, m, r);
    }
  }

  lemma EmptyReplacementIff(n: nat, k: nat)
    ensures (n + 1) * k == 0 <==> k == 0
  {}

  lemma NonemptyMatchUnchangedIff(s: seq<byte>, m: seq<byte>, r: seq<byte>)
    requires m != []
    ensures |Pieces(s, m)| == 1 <==> Absent(s, m)
    ensures Replaced(s, m, r) == s <==> r == m || |Pieces(s, m)| == 1
  {
    var ps := Pieces(s, m);
    SplitIsASplit(s, m);
    FirstPiece(ps, m);
    if |ps| > 1 && Replaced(s, m, r) == s {
      JoinLength(ps, m, r);
      ZeroProduct(|ps| - 1, |r| - |m|);
      SameMiddle(ps[0], m, Join(ps[1..], m), r, Join(ps[1..], r));
    }
  }

  lemma SameMiddle(p: seq<byte>, m: seq<byte>, x: seq<byte>, r: seq<byte>, y: seq<byte>)
    requires p + m + x == p + r + y && |m| == |r|
    ensures m == r
  {
    assert (p + m + x)[|p|..|p| + |m|] == m && (p + r + y)[|p|..|p| + |r|] == r;
  }

  lemma ZeroProduct(a: int, b: int)
    requires a != 0 && a * b == 0
    ensures b == 0
  {}

  /** Between characters: every `a` becomes a `b`. */
  function Substituted(s: seq<byte>, a: byte, b: byte): (t: seq<byte>)
    ensures |t| == |s| && forall k :: 0 <= k < |s| ==> t[k] == if s[k] == a then b else s[k]
  {
    if s == [] then [] else [if s[0] == a then b else s[0]] + Substituted(s[1..], a, b)
  }

  lemma FirstOccurrenceOfByte(s: seq<byte>, a: byte)
    ensures var f := FirstOccurrence(s, [a], 0);
            if f.None? then a !in s
            else f.value < |s| && s[f.value] == a && a !in s[..f.value]
  {
    var f := FirstOccurrence(s, [a], 0);
    var n := if f.None? then |s| else f.value;
    forall k | 0 <= k < n
      ensures s[k] != a
    {
      assert s[k..k + 1] == [s[k]];
      assert !OccursAt(s, [a], k);
    }
  }

  lemma SubstitutedSplits(p: seq<byte>, rest: seq<byte>, a: byte, b: byte)
    requires a !in p
    ensures Substituted(p, a, b) == p
    ensures Substituted(p + [a] + rest, a, b) == p + [b] + Substituted(rest, a, b)
  {}

  lemma {:induction false} ReplacedByte(s: seq<byte>, a: byte, b: byte)
    ensures Replaced(s, [a], [b]) == Substituted(s, a, b)
  {
    var f := FirstOccurrence(s, [a], 0);
    FirstOccurrenceOfByte(s, a);
    if f.None? {
      SubstitutedSplits(s, [], a, b);
    } else {
      var p, rest := s[..f.value], s[f.value + 1..];
      assert s == p + [a] + rest;
      ReplacedByte(rest, a, b);
      SplitIsASplit(rest, [a]);
      JoinFirst(p, Split(rest, [a]), [b]);
      SubstitutedSplits(p, rest, a, b);
    }
  }

  /** Replacing a character can be taken back exactly when the new character was not there before. */
  lemma ReplacingBytesBackIff(s: seq<byte>, a: byte, b: byte)
    ensures Replaced(Replaced(s, [a], [b]), [b], [a]) == s <==> a == b || b !in s
  {
    ReplacedByte(s, a, b);
    ReplacedByte(Substituted(s, a, b), b, a);
    SubstitutingBackIff(s, a, b);
  }

  lemma SubstitutingBackIff(s: seq<byte>, a: byte, b: byte)
    ensures Substituted(Substituted(s, a, b), b, a) == s <==> a == b || b !in s
  {
    if b in s {
      var k :| 0 <= k < |s| && s[k] == b;
      SubstitutedTwiceAt(s, a, b, k);
    } else {
      forall k | 0 <= k < |s|
        ensures Substituted(Substituted(s, a, b), b, a)[k] == s[k]
      {
        SubstitutedTwiceAt(s, a, b, k);
      }
    }
  }

  lemma SubstitutedTwiceAt(s: seq<byte>, a: byte, b: byte, k: nat)
    requires k < |s|
    ensures Substituted(Substituted(s, a, b), b, a)[k] == if s[k] == a || s[k] == b then a else s[k]
  {
    assert Substituted(s, a, b)[k] == if s[k] == a then b else s[k];
  }

  lemma OccursInSlice(s: seq<byte>, m: seq<byte>, from: nat, to: nat, i: nat)
    requires from <= to <= |s| && OccursAt(s[from..to], m, i)
    ensures OccursAt(s, m, from + i)
  {
    var t, u := s[from..to], s[from + i..from + i + |m|];
    forall k | 0 <= k < |m|
      ensures u[k] == m[k]
    {
      assert t[i..i + |m|][k] == t[i + k];
    }
  }

  lemma ThreePieces(s: seq<byte>, i: nat, j: nat, m: seq<byte>)
    requires i <= j && j + |m| <= |s| && s[j..j + |m|] == m
    ensures s[i..] == s[i..j] + m + s[j + |m|..]
  {
    TwoPieces(s, i, j);
    TwoPieces(s, j, j + |m|);
    assert s[i..j] + (m + s[j + |m|..]) == s[i..j] + m + s[j + |m|..];
  }

  lemma TwoPieces(s: seq<byte>, i: nat, j: nat)
    requires i <= j <= |s|
    ensures s[i..] == s[i..j] + s[j..]
  {}

  lemma NoneInSuffix(s: text, m: seq<byte>, back: nat)
    requires back <= |s| && IsFirst(s, m, back, NPOS)
    ensures IsSplit([s[back..]], m)
  {
    forall i | 0 <= i && OccursAt(s[back..], m, i)
      ensures false
    {
      assert s[back..|s|] == s[back..];
      OccursInSlice(s, m, back, |s|, i);
    }
  }

  /** What `find` says about the string from `back` on is what decides its first piece. */
  lemma FirstIsFirstPiece(s: text, m: seq<byte>, back: nat, front: u64, p: seq<byte>)
    requires back <= |s| && IsFirst(s, m, back, front) && front != NPOS && p == s[back..front]
    ensures forall i :: 0 <= i < |p| ==> !OccursAt(p + m, m, i)
  {
    forall i | 0 <= i < |p| && OccursAt(p + m, m, i)
      ensures false
    {
      assert s[back..front + |m|] == p + m;
      OccursInSlice(s, m, back, front + |m|, i);
    }
  }

  lemma SplitFrom(s: text, m: seq<byte>, back: nat, front: u64)
    requires m != [] && back <= |s| && IsFirst(s, m, back, front)
    ensures Split(s[back..], m)
            == if front == NPOS then [s[back..]] else [s[back..front]] + Split(s[front + |m|..], m)
  {
    if front == NPOS {
      NoneInSuffix(s, m, back);
      SplitIsUnique([s[back..]], m);
    } else {
      var p, rest := s[back..front], s[front + |m|..];
      FirstIsFirstPiece(s, m, back, front, p);
      ThreePieces(s, back, front, m);
      SplitPiece(p, m, rest);
    }
  }

  lemma SplitPiece(p: seq<byte>, m: seq<byte>, rest: seq<byte>)
    requires m != [] && forall i :: 0 <= i < |p| ==> !OccursAt(p + m, m, i)
    ensures Split(p + m + rest, m) == [p] + Split(rest, m)
  {
    SplitIsASplit(rest, m);
    PieceBefore(p, Split(rest, m), m);
    JoinFirst(p, Split(rest, m), m);
    SplitIsUnique([p] + Split(rest, m), m);
  }

  /** One round of the loop, which has yet to do the string from `back` on. */
  lemma ReplacedFrom(s: text, m: seq<byte>, r: seq<byte>, back: nat, front: u64)
    requires m != [] && back <= |s| && IsFirst(s, m, back, front)
    ensures Replaced(s[back..], m, r)
            == if front == NPOS then s[back..] else s[back..front] + r + Replaced(s[front + |m|..], m, r)
  {
    SplitFrom(s, m, back, front);
    if front != NPOS {
      SplitIsASplit(s[front + |m|..], m);
      JoinFirst(s[back..front], Split(s[front + |m|..], m), r);
    }
  }

  method ReplaceAll(s: text, match_: seq<byte>, replacement: seq<byte>) returns (r: seq<byte>)
    ensures r == Replaced(s, match_, replacement)
  {
    if |match_| == 0 {
      r := Interleave(s, replacement);
      return;
    }
    var back := 0;
    var front: u64 := Find(s, match_, 0);
    ReplacedFrom(s, match_, replacement, back, front);
    assert s[0..] == s;
    if front == NPOS {
      return s;
    }
    r := [];
    ghost var whole := Replaced(s, match_, replacement);
    while front != NPOS
      invariant 0 <= back <= |s| && IsFirst(s, match_, back, front)
      invariant Finished(s, match_, replacement, r, back) == whole
      decreases |s| - back
    {
      ghost var was := r;
      if back < front {
        r := r + s[back..front];
      }
      r := r + replacement;
      ghost var from := back;
      back := front + |match_|;
      ReplaceOne(s, match_, replacement, was, from, front, r, back);
      front := Find(s, match_, back);
    }
    ReplacedFrom(s, match_, replacement, back, front);
    if back < |s| {
      r := r + s[back..];
    }
  }

  /** What the loop makes of the string when it has done the bytes before `back`. */
  ghost function Finished(s: text, m: seq<byte>, r: seq<byte>, done: seq<byte>, back: nat): seq<byte>
    requires back <= |s|
  {
    done + Replaced(s[back..], m, r)
  }

  lemma ReplaceOne(s: text, m: seq<byte>, r: seq<byte>, done: seq<byte>, back: nat, front: u64, next: seq<byte>, to: nat)
    requires m != [] && back <= |s| && IsFirst(s, m, back, front) && front != NPOS
    requires next == if back < front then done + s[back..front] + r else done + r
    requires to == front + |m|
    ensures Finished(s, m, r, next, to) == Finished(s, m, r, done, back)
  {
    ReplacedFrom(s, m, r, back, front);
    Associates(done, s[back..front], r, Replaced(s[to..], m, r), Replaced(s[back..], m, r), next);
  }

  lemma Associates(done: seq<byte>, piece: seq<byte>, r: seq<byte>, after: seq<byte>, rest: seq<byte>, next: seq<byte>)
    requires rest == piece + r + after
    requires next == if piece != [] then done + piece + r else done + r
    ensures next + after == done + rest
  {
    assert piece == [] ==> done + piece == done;
    assert done + (piece + r + after) == done + piece + r + after;
  }

  method Interleave(s: text, replacement: seq<byte>) returns (r: seq<byte>)
    ensures r == Replaced(s, [], replacement)
  {
    r := [];
    var i := 0;
    while i < |s|
      invariant 0 <= i <= |s|
      invariant r == Join([[]] + Bytes(s[..i]), replacement)
    {
      assert s[..i + 1] == s[..i] + [s[i]];
      BytesAppend(s[..i], s[i]);
      JoinLast([[]] + Bytes(s[..i]), [s[i]], replacement);
      assert [[]] + (Bytes(s[..i]) + [[s[i]]]) == [[]] + Bytes(s[..i]) + [[s[i]]];
      r := r + replacement;
      r := r + [s[i]];
      i := i + 1;
    }
    assert s[..i] == s;
    JoinLast([[]] + Bytes(s), [], replacement);
    r := r + replacement;
  }

  /** Only the first piece is followed by the replacement; the others keep the match between them. */
  method ReplaceFirst(s: text, match_: seq<byte>, replacement: seq<byte>) returns (r: seq<byte>)
    ensures var ps := Pieces(s, match_);
            r == if |ps| == 1 then s else ps[0] + replacement + Join(ps[1..], match_)
    ensures forall i: u64 :: IsFirst(s, match_, 0, i) ==>
              r == if i == NPOS then s else s[..i] + replacement + s[i + |match_|..]
  {
    var i := Find(s, match_, 0);
    FirstOfPieces(s, match_, i);
    forall j: u64 | IsFirst(s, match_, 0, j)
      ensures j == i
    {
      FirstIsUnique(s, match_, 0, i, j);
    }
    if i == NPOS {
      return s;
    }
    var buff: seq<byte> := [];
    buff := buff + s[0..i];
    buff := buff + replacement;
    var rest := i + |match_|;
    if rest < |s| {
      buff := buff + s[rest..];
    }
    return buff;
  }

  lemma FirstOfPieces(s: text, m: seq<byte>, i: u64)
    requires IsFirst(s, m, 0, i)
    ensures var ps := Pieces(s, m);
            if i == NPOS then |ps| == 1
            else |ps| > 1 && ps[0] == s[..i] && Join(ps[1..], m) == s[i + |m|..]
  {
    PiecesJoin(s, m);
    if m == [] {
      assert s[0..0] == [];
      assert OccursAt(s, m, 0);
      JoinBytes(s);
      assert ([[]] + Bytes(s) + [[]])[1..] == Bytes(s) + [[]];
    } else {
      SplitFrom(s, m, 0, i);
      assert s[0..] == s;
      if i != NPOS {
        SplitIsASplit(s[i + |m|..], m);
      }
    }
  }

  // ---------------------------------------------------------------------------------------------
  // Trimming
  // ---------------------------------------------------------------------------------------------

  /** `std::isspace` in the C locale. */
  predicate IsSpace(c: byte) {
    c == 0x20 || 0x09 <= c <= 0x0D
  }

  /** Tab, line feed, vertical tab, form feed, carriage return and the space itself. */
  lemma SpacesAre(c: byte)
    ensures IsSpace(c) <==> c in {9, 10, 11, 12, 13, 32}
  {}

  ghost predicate AllSpaces(s: seq<byte>, from: nat, to: nat)
    requires from <= to <= |s|
  {
    forall k :: from <= k < to ==> IsSpace(s[k])
  }

  method TrimLeftIndex(s: text) returns (i: nat)
    ensures i <= |s| && AllSpaces(s, 0, i) && (i < |s| ==> !IsSpace(s[i]))
  {
    i := 0;
    while i < |s|
      invariant i <= |s| && AllSpaces(s, 0, i)
    {
      if !IsSpace(s[i]) {
        break;
      }
      i := i + 1;
    }
  }

  method TrimRightIndex(s: text) returns (i: nat)
    ensures i <= |s| && AllSpaces(s, i, |s|) && (i > 0 ==> !IsSpace(s[i - 1]))
  {
    i := |s|;
    while i > 0
      invariant i <= |s| && AllSpaces(s, i, |s|)
    {
      if !IsSpace(s[i - 1]) {
        break;
      }
      i := i - 1;
    }
  }

  /** Nothing but spaces is taken from the ends of `s`, and no space is left there. */
  ghost predicate TrimsTo(s: seq<byte>, l: int, r: int) {
    && 0 <= l <= r <= |s|
    && AllSpaces(s, 0, l) && AllSpaces(s, r, |s|)
    && (l < r ==> !IsSpace(s[l]) && !IsSpace(s[r - 1]))
  }

  method Trim(s: text) returns (t: seq<byte>)
    ensures exists l, r :: TrimsTo(s, l, r) && t == s[l..r]
  {
    var r := TrimRightIndex(s);
    if r == 0 {
      assert TrimsTo(s, 0, 0);
      return [];
    }
    var l := TrimLeftIndex(s);
    assert TrimsTo(s, l, r);
    if l == 0 && r == |s| {
      assert s == s[l..r];
      return s;
    }
    return s[l..r];
  }

  lemma TrimIsUnique(s: seq<byte>, l: int, r: int, k: int, q: int)
    requires TrimsTo(s, l, r) && TrimsTo(s, k, q)
    ensures s[l..r] == s[k..q]
  {
    assert l < r <==> exists j :: 0 <= j < |s| && !IsSpace(s[j]);
  }
}

/**
  Searching and comparing byte strings: `find`, `rfind` and `compare` of `immutable_string`.
 */
module Search {

  import opened Wrappers
  import opened Words

  /** A string that fits in memory, so that no index into it is `npos`. */
  type text = s: seq<byte> | |s| < NPOS

  predicate OccursAt(s: seq<byte>, p: seq<byte>, i: nat) {
    i + |p| <= |s| && s[i..i + |p|] == p
  }

  /** The least index from `pos` on where the pattern occurs, or `npos` when there is none. */
  ghost predicate IsFirst(s: text, p: seq<byte>, pos: nat, r: u64) {
    if r == NPOS then forall i :: pos <= i ==> !OccursAt(s, p, i)
    else pos <= r && OccursAt(s, p, r) && forall i :: pos <= i < r ==> !OccursAt(s, p, i)
  }

  /** The greatest index up to `pos` where the pattern occurs, or `npos` when there is none. */
  ghost predicate IsLast(s: text, p: seq<byte>, pos: nat, r: u64) {
    if r == NPOS then forall i :: 0 <= i <= pos ==> !OccursAt(s, p, i)
    else r <= pos && OccursAt(s, p, r) && forall i :: r < i <= pos ==> !OccursAt(s, p, i)
  }

  lemma FirstIsUnique(s: text, p: seq<byte>, pos: nat, r: u64, q: u64)
    requires IsFirst(s, p, pos, r) && IsFirst(s, p, pos, q)
    ensures r == q
  {
    assert OccursAt(s, p, r) ==> r != NPOS;
    assert OccursAt(s, p, q) ==> q != NPOS;
  }

  /** `traits_type::find`: the first of `n` bytes from `i` on that is `c`. */
  function FirstByte(s: seq<byte>, i: nat, n: nat, c: byte): (r: Option<nat>)
    requires i + n <= |s|
    ensures r.None? ==> c !in s[i..i + n]
    ensures r.Some? ==> i <= r.value < i + n && s[r.value] == c && c !in s[i..r.value]
    decreases n
  {
    if n == 0 then None else if s[i] == c then Some(i) else FirstByte(s, i + 1, n - 1, c)
  }

  lemma OccurrenceStarts(s: text, p: seq<byte>, i: nat)
    requires p != []
    ensures OccursAt(s, p, i) ==> s[i] == p[0]
  {
    if OccursAt(s, p, i) {
      assert s[i] == s[i..i + |p|][0];
    }
  }

  lemma NoFirstByte(s: text, p: seq<byte>, i: nat, j: nat)
    requires p != [] && i <= j <= |s| && p[0] !in s[i..j]
    ensures forall k :: i <= k < j ==> !OccursAt(s, p, k)
  {
    forall k | i <= k < j
      ensures !OccursAt(s, p, k)
    {
      assert s[k] == s[i..j][k - i];
      OccurrenceStarts(s, p, k);
    }
  }

  method Find(s: text, pattern: seq<byte>, pos: u64) returns (r: u64)
    ensures IsFirst(s, pattern, pos, r)
  {
    var length := |s|;
    if |pattern| == 0 {
      return if pos <= length then pos else NPOS;
    } else if length <= pos {
      return NPOS;
    }
    var at, remaining := pos, length - pos;
    while remaining >= |pattern|
      invariant pos <= at <= length && remaining == length - at
      invariant forall i :: pos <= i < at ==> !OccursAt(s, pattern, i)
      decreases remaining
    {
      var found := FirstByte(s, at, remaining - |pattern| + 1, pattern[0]);
      if found.None? {
        NoFirstByte(s, pattern, at, length - |pattern| + 1);
        return NPOS;
      }
      NoFirstByte(s, pattern, at, found.value);
      at := found.value;
      if s[at..at + |pattern|] == pattern {
        return at;
      }
      at := at + 1;
      remaining := length - at;
    }
    return NPOS;
  }

  method FindByte(s: text, c: byte, pos: u64) returns (r: u64)
    ensures IsFirst(s, [c], pos, r)
  {
    r := NPOS;
    var length := |s|;
    if pos < length {
      var p := FirstByte(s, pos, length - pos, c);
      NoFirstByte(s, [c], pos, if p.Some? then p.value else length);
      if p.Some? {
        r := p.value;
      }
    }
  }

  method RFind(s: text, pattern: seq<byte>, pos: u64) returns (r: u64)
    ensures IsLast(s, pattern, pos, r)
  {
    var length, n := |s|, |pattern|;
    if n > length {
      return NPOS;
    }
    var at := if pos < length - n then pos else length - n;
    if n == 0 {
      return at;
    }
    while true
      invariant 0 <= at <= pos && at + n <= length
      invariant forall i :: at < i <= pos ==> !OccursAt(s, pattern, i)
      decreases at
    {
      if s[at] == pattern[0] && s[at..at + n] == pattern {
        return at;
      } else if at == 0 {
        break;
      }
      OccurrenceStarts(s, pattern, at);
      at := at - 1;
    }
    OccurrenceStarts(s, pattern, 0);
    return NPOS;
  }

  method RFindByte(s: text, c: byte, pos: u64) returns (r: u64)
    ensures IsLast(s, [c], pos, r)
  {
    var length := |s|;
    if length != 0 {
      length := length - 1;
      if length > pos {
        length := pos;
      }
      length := length + 1;
      while length > 0
        invariant 0 <= length <= |s| && length <= pos + 1
        invariant forall i :: length <= i <= pos ==> !OccursAt(s, [c], i)
      {
        length := length - 1;
        if s[length] == c {
          return length;
        }
        OccurrenceStarts(s, [c], length);
      }
    }
    return NPOS;
  }

  // ---------------------------------------------------------------------------------------------
  // Comparison
  // ---------------------------------------------------------------------------------------------

  datatype Order = Less | Equal | Greater

  function Sign(x: int): Order {
    if x < 0 then Less else if x == 0 then Equal else Greater
  }

  /** The lexicographic order of byte strings. */
  function Lexicographic(s: seq<byte>, t: seq<byte>): Order {
    if s == [] then if t == [] then Equal else Less
    else if t == [] then Greater
    else if s[0] < t[0] then Less
    else if s[0] > t[0] then Greater
    else Lexicographic(s[1..], t[1..])
  }

  /** `traits_type::compare` of the first `n` bytes. */
  function CompareBytes(s: seq<byte>, t: seq<byte>, n: nat): int
    requires n <= |s| && n <= |t|
  {
    if n == 0 then 0 else if s[0] != t[0] then s[0] - t[0] else CompareBytes(s[1..], t[1..], n - 1)
  }

  /** The conversion of a 64-bit word to a signed 32-bit integer. */
  function ToInt32(x: u64): int {
    var low := x % TWO_32;
    if low < TWO_32 / 2 then low else low - TWO_32
  }

  /** The sign of the result is the lexicographic order, unless the length decides and loses its sign. */
  method Compare(s: text, t: text) returns (r: int)
    ensures Sign(r) == Lexicographic(s, t) <==> OneIsPrefix(s, t) ==> DifferenceKeepsSign(|s| - |t|)
    ensures r == Comparison(s, t)
  {
    CompareIsLexicographicIffDifferenceFits(s, t);
    var length, other := |s|, |t|;
    r := CompareBytes(s, t, if length < other then length else other);
    if r == 0 {
      r := ToInt32(Wrap64(length - other));
    }
  }

  function Comparison(s: text, t: text): int {
    var r := CompareBytes(s, t, if |s| < |t| then |s| else |t|);
    if r != 0 then r else ToInt32(Wrap64(|s| - |t|))
  }

  predicate OneIsPrefix(s: seq<byte>, t: seq<byte>) {
    s <= t || t <= s
  }

  /** The low half of the length difference, read as a signed number, has the sign of the difference. */
  predicate DifferenceKeepsSign(d: int) {
    if d > 0 then 0 < d % TWO_32 < TWO_32 / 2
    else d == 0 || TWO_32 / 2 <= d % TWO_32
  }

  lemma {:induction false} ComparesUpToCommonLength(s: seq<byte>, t: seq<byte>, n: nat)
    requires n == if |s| < |t| then |s| else |t|
    ensures CompareBytes(s, t, n) == 0 <==> OneIsPrefix(s, t)
    ensures Lexicographic(s, t) == if OneIsPrefix(s, t) then Sign(|s| - |t|) else Sign(CompareBytes(s, t, n))
  {
    if n > 0 {
      assert OneIsPrefix(s, t) <==> s[0] == t[0] && OneIsPrefix(s[1..], t[1..]) by {
        assert s <= t ==> s[1..] <= t[1..];
        assert t <= s ==> t[1..] <= s[1..];
        assert s == [s[0]] + s[1..] && t == [t[0]] + t[1..];
      }
      if s[0] == t[0] {
        ComparesUpToCommonLength(s[1..], t[1..], n - 1);
      }
    }
  }

  lemma ToInt32OfDifference(d: int)
    requires -TWO_64 < d < TWO_64
    ensures Sign(ToInt32(Wrap64(d))) == Sign(d) <==> DifferenceKeepsSign(d)
    ensures -TWO_32 / 2 <= d < TWO_32 / 2 ==> DifferenceKeepsSign(d)
  {
    assert Wrap64(d) % TWO_32 == d % TWO_32;
  }

  /**
    `compare` orders two strings lexicographically except where one begins with the other and the difference of their
    lengths loses its sign when it is narrowed to 32 bits.
   */
  lemma CompareIsLexicographicIffDifferenceFits(s: text, t: text)
    ensures Sign(Comparison(s, t)) == Lexicographic(s, t) <==> OneIsPrefix(s, t) ==> DifferenceKeepsSign(|s| - |t|)
    ensures |s| < TWO_32 / 2 && |t| < TWO_32 / 2 ==> Sign(Comparison(s, t)) == Lexicographic(s, t)
  {
    ComparesUpToCommonLength(s, t, if |s| < |t| then |s| else |t|);
    ToInt32OfDifference(|s| - |t|);
  }

  /** The first byte in which two strings differ decides, and a string comes after its beginnings. */
  lemma {:induction false} FirstDifferenceDecides(p: seq<byte>, a: byte, s: seq<byte>, b: byte, t: seq<byte>)
    ensures Lexicographic(p, p + [a] + s) == Less && Lexicographic(p + [a] + s, p) == Greater
    ensures a < b ==> Lexicographic(p + [a] + s, p + [b] + t) == Less
    ensures a > b ==> Lexicographic(p + [a] + s, p + [b] + t) == Greater
  {
    if p != [] {
      assert (p + [a] + s)[1..] == p[1..] + [a] + s && (p + [b] + t)[1..] == p[1..] + [b] + t;
      FirstDifferenceDecides(p[1..], a, s, b, t);
    }
  }

  /** The result of `compare` is negative when the first string comes first. */
  lemma CompareOfFirstDifference(p: seq<byte>, a: byte, s: seq<byte>, b: byte, t: seq<byte>)
    requires |p| + 1 + |s| < NPOS && |p| + 1 + |t| < NPOS && a != b
    ensures Comparison(p + [a] + s, p + [b] + t) < 0 <==> a < b
  {
    FirstDifferenceDecides(p, a, s, b, t);
    CompareIsLexicographicIffDifferenceFits(p + [a] + s, p + [b] + t);
    assert (p + [a] + s)[|p|] == a && (p + [b] + t)[|p|] == b;
  }

  /** For strings of up to `n` bytes, being less in `compare` is a strict weak order. */
  ghost predicate OrdersStringsUpTo(n: nat) {
    (forall a: text, b: text ::
       |a| <= n && |b| <= n && Comparison(a, b) < 0 ==> Comparison(b, a) >= 0)
    && (forall a: text, b: text, c: text ::
          |a| <= n && |b| <= n && |c| <= n && Comparison(a, c) < 0 ==> Comparison(a, b) < 0 || Comparison(b, c) < 0)
  }

  /** A string of 2^31 bytes and the empty one are each less than the other; up to there `compare` orders all strings. */
  lemma OrdersStringsIff(n: nat)
    ensures OrdersStringsUpTo(n) <==> n < TWO_32 / 2
  {
    if n < TWO_32 / 2 {
      forall a: text, b: text, c: text | |a| <= n && |b| <= n && |c| <= n
        ensures Comparison(a, b) < 0 ==> Comparison(b, a) >= 0
        ensures Comparison(a, c) < 0 ==> Comparison(a, b) < 0 || Comparison(b, c) < 0
      {
        LessIsOrder(a, b, c);
        CompareIsLexicographicIffDifferenceFits(a, b);
        CompareIsLexicographicIffDifferenceFits(b, a);
        CompareIsLexicographicIffDifferenceFits(b, c);
        CompareIsLexicographicIffDifferenceFits(a, c);
      }
    } else {
      var long, empty: text := seq(TWO_32 / 2, _ => 0), [];
      assert Comparison(long, empty) < 0 && Comparison(empty, long) < 0;
    }
  }

  lemma LessIsOrder(a: seq<byte>, b: seq<byte>, c: seq<byte>)
    ensures Lexicographic(a, b) == Less ==> Lexicographic(b, a) != Less
    ensures Lexicographic(a, c) == Less ==> Lexicographic(a, b) == Less || Lexicographic(b, c) == Less
  {
    LexicographicIsAntisymmetric(a, b);
    LexicographicIsAntisymmetric(b, a);
    LexicographicIsAntisymmetric(b, c);
    LexicographicIsAntisymmetric(c, b);
    LexicographicIsAntisymmetric(a, c);
    LexicographicIsAntisymmetric(c, a);
    if Lexicographic(a, b) != Less && Lexicographic(b, c) != Less {
      LexicographicIsTransitive(c, b, a);
    }
  }

  /** A string of 2^32 bytes compares equal to the empty one. */
  lemma CompareConfusesLongStrings(s: text)
    requires |s| == TWO_32
    ensures Comparison(s, []) == 0 && s != []
  {}

  lemma {:induction false} LexicographicIsAntisymmetric(s: seq<byte>, t: seq<byte>)
    ensures Lexicographic(s, t) == Equal <==> s == t
    ensures Lexicographic(s, t) == Less <==> Lexicographic(t, s) == Greater
  {
    if s != [] && t != [] {
      assert s == [s[0]] + s[1..] && t == [t[0]] + t[1..];
      LexicographicIsAntisymmetric(s[1..], t[1..]);
    }
  }

  lemma {:induction false} LexicographicIsTransitive(s: seq<byte>, t: seq<byte>, u: seq<byte>)
    requires Lexicographic(s, t) != Greater && Lexicographic(t, u) != Greater
    ensures Lexicographic(s, u) != Greater
  {
    if s != [] && t != [] && u != [] && s[0] == t[0] == u[0] {
      LexicographicIsTransitive(s[1..], t[1..], u[1..]);
    }
  }
}

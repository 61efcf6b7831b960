/**
  The UTF-8 cursor: a bidirectional iterator over the characters of a byte string whose end wraps around to the
  beginning, and the reversal of a string by character that is built on it.

  A character is a lead byte and its continuation bytes (section 3 of RFC 3629).
 */
module Utf8 {

  import opened Wrappers
  import opened Words

  datatype Invalid = InvalidUtf8String | PositionOutsideOfString

  /** A string that fits in memory with room for its terminator, so that cursor arithmetic does not wrap. */
  type text = s: seq<byte> | |s| + 4 < NPOS

  // ---------------------------------------------------------------------------------------------
  // Bytes
  // ---------------------------------------------------------------------------------------------

  /** `s[i]`; the byte behind an empty string is its terminator. */
  function At(s: seq<byte>, i: nat): byte
    requires i <= |s|
  {
    if i < |s| then s[i] else 0
  }

  predicate IsContinuation(c: byte) {
    c / 0x40 == 2
  }

  function LeadSize(c: byte): Option<nat> {
    if c <= 0x7F then Some(1)
    else if c / 0x20 == 6 then Some(2)
    else if c / 0x10 == 14 then Some(3)
    else if c / 0x08 == 30 then Some(4)
    else None
  }

  function NextCharSize(s: seq<byte>, i: nat): Option<nat>
    requires i <= |s|
  {
    LeadSize(At(s, i))
  }

  /** Looks for a lead among the four bytes before `i`; reaching `npos` is an error like finding none. */
  function PrevCharSize(s: seq<byte>, i: nat): (r: Option<nat>)
    requires i <= |s|
    ensures r.Some? ==> 0 < r.value <= 4 && r.value <= i && !IsContinuation(s[i - r.value])
    ensures r.Some? ==> forall j :: i - r.value < j < i ==> IsContinuation(s[j])
    ensures r.None? ==> forall j :: 0 <= j && i - 4 <= j < i ==> IsContinuation(s[j])
  {
    if i < 1 then None
    else if !IsContinuation(s[i - 1]) then Some(1)
    else if i < 2 then None
    else if !IsContinuation(s[i - 2]) then Some(2)
    else if i < 3 then None
    else if !IsContinuation(s[i - 3]) then Some(3)
    else if i < 4 then None
    else if !IsContinuation(s[i - 4]) then Some(4)
    else None
  }

  // ---------------------------------------------------------------------------------------------
  // Characters
  // ---------------------------------------------------------------------------------------------

  /** A lead byte and exactly the continuation bytes it announces. */
  ghost predicate IsCharacter(g: seq<byte>) {
    g != [] && LeadSize(g[0]) == Some(|g|) && forall k :: 0 < k < |g| ==> IsContinuation(g[k])
  }

  ghost predicate AreCharacters(gs: seq<seq<byte>>) {
    forall k :: 0 <= k < |gs| ==> IsCharacter(gs[k])
  }

  function Flatten(gs: seq<seq<byte>>): seq<byte> {
    if gs == [] then [] else gs[0] + Flatten(gs[1..])
  }

  function Backwards(gs: seq<seq<byte>>): seq<seq<byte>> {
    if gs == [] then [] else Backwards(gs[1..]) + [gs[0]]
  }

  ghost predicate WellFormed(s: seq<byte>) {
    exists gs :: AreCharacters(gs) && Flatten(gs) == s
  }

  // ---------------------------------------------------------------------------------------------
  // The cursor
  // ---------------------------------------------------------------------------------------------

  /** The position of the current character and its size; the end is at `npos` and has size 0. */
  datatype Cursor = Cursor(i: u64, n: nat)

  const END := Cursor(NPOS, 0)

  ghost predicate InText(s: text, c: Cursor) {
    c == END || (c.i <= |s| && c.n <= 4)
  }

  function Begin(s: text): Option<Cursor> {
    if s == [] then Some(END)
    else if NextCharSize(s, 0).None? then None
    else Some(Cursor(0, NextCharSize(s, 0).value))
  }

  /** Where an increment goes, or `None` when it throws. */
  function Forward(s: text, c: Cursor): Option<Cursor>
    requires InText(s, c)
  {
    var to := if c == END then 0 else c.i + c.n;
    if c != END && to >= |s| then Some(END)
    else if NextCharSize(s, to).None? then None
    else Some(Cursor(to, NextCharSize(s, to).value))
  }

  /** Where a decrement goes, or `None` when it throws. */
  function Backward(s: text, c: Cursor): Option<Cursor>
    requires InText(s, c)
  {
    var from := if c == END then |s| else c.i;
    if c.i == 0 then Some(END)
    else if PrevCharSize(s, from).None? then None
    else var n := PrevCharSize(s, from).value; Some(Cursor(from - n, n))
  }

  /** `data.substr(i, n)`, which clamps. */
  function Piece(s: text, c: Cursor): seq<byte>
    requires c.i <= |s|
  {
    s[c.i..if c.i + c.n <= |s| then c.i + c.n else |s|]
  }

  class Utf8Iterator {
    const data: text
    var i: u64
    var n: nat

    ghost predicate Valid()
      reads this
    {
      InText(data, Now())
    }

    ghost function Now(): Cursor
      reads this
    {
      Cursor(i, n)
    }

    /** The iterator at the end of a range. */
    constructor AtEnd(s: text)
      ensures Valid() && data == s && Now() == END
    {
      data, i, n := s, NPOS, 0;
    }

    constructor CopyOf(it: Utf8Iterator)
      requires it.Valid()
      ensures Valid() && data == it.data && Now() == it.Now()
    {
      data, i, n := it.data, it.i, it.n;
    }

    method Increment() returns (r: Result<(), Invalid>)
      requires Valid()
      modifies this
      ensures Valid()
      ensures r.Success? <==> Forward(data, old(Now())).Some?
      ensures r.Success? ==> Now() == Forward(data, old(Now())).value
      ensures r.Failure? ==> n == old(n) && i == if old(Now()) == END then 0 else old(i) + n
    {
      if i == NPOS {
        i := 0;
      } else {
        i := Wrap64(i + n);
        if i >= |data| {
          i, n := NPOS, 0;
          return Success(());
        }
      }
      var size := NextCharSize(data, i);
      if size.None? {
        return Failure(InvalidUtf8String);
      }
      n := size.value;
      return Success(());
    }

    method Decrement() returns (r: Result<(), Invalid>)
      requires Valid()
      modifies this
      ensures Valid()
      ensures r.Success? <==> Backward(data, old(Now())).Some?
      ensures r.Success? ==> Now() == Backward(data, old(Now())).value
      ensures r.Failure? ==> Now() == old(Now())
    {
      if i == 0 {
        i, n := NPOS, 0;
      } else {
        var from := if i == NPOS then |data| else i;
        var size := PrevCharSize(data, from);
        if size.None? {
          return Failure(InvalidUtf8String);
        }
        n := size.value;
        i := from - n;
      }
      return Success(());
    }

    method Deref() returns (r: Result<seq<byte>, Invalid>)
      requires Valid()
      ensures r == if Now() == END then Failure(PositionOutsideOfString) else Success(Piece(data, Now()))
    {
      if |data| < i {
        return Failure(PositionOutsideOfString);
      }
      return Success(data[i..if i + n <= |data| then i + n else |data|]);
    }

    /** The dereference of the reversed view: that of a decremented copy. */
    method DerefBefore() returns (r: Result<seq<byte>, Invalid>)
      requires Valid() && Now().i != 0
      ensures r == var b := Backward(data, Now());
                   if b.None? then Failure(InvalidUtf8String) else Success(Piece(data, b.value))
    {
      var tmp := new Utf8Iterator.CopyOf(this);
      var moved := tmp.Decrement();
      if moved.Failure? {
        return Failure(InvalidUtf8String);
      }
      r := tmp.Deref();
    }
  }

  // ---------------------------------------------------------------------------------------------
  // Reversal
  // ---------------------------------------------------------------------------------------------

  /** The start of the last character: the last byte that continues nothing. */
  function LastStart(s: seq<byte>): (k: nat)
    requires s != []
    ensures k < |s|
    ensures forall j :: k < j < |s| ==> IsContinuation(s[j])
    ensures k > 0 ==> !IsContinuation(s[k])
  {
    var end := |s| - 1;
    if end == 0 || !IsContinuation(s[end]) then end else LastStart(s[..end])
  }

  /** The characters in reverse order, where a character is a non-continuation byte and all continuation bytes behind it. */
  function Reversed(s: seq<byte>): (r: seq<byte>)
    ensures |r| == |s|
  {
    if s == [] then [] else var k := LastStart(s); s[k..] + Reversed(s[..k])
  }

  /** More continuation bytes in a row than any lead announces. */
  ghost predicate HasLongRun(s: seq<byte>) {
    exists k :: LongRunAt(s, k)
  }

  ghost predicate LongRunAt(s: seq<byte>, k: int) {
    0 <= k && k + 3 < |s| && forall j :: k <= j < k + 4 ==> IsContinuation(s[j])
  }

  ghost predicate CanReverse(s: seq<byte>) {
    s == [] || (LeadSize(s[0]).Some? && !HasLongRun(s))
  }

  lemma LeadIsNoContinuation(c: byte)
    requires LeadSize(c).Some?
    ensures !IsContinuation(c)
  {}

  lemma PrevCharSizeIsLastStart(s: seq<byte>, i: nat)
    requires 0 < i <= |s|
    ensures var k := LastStart(s[..i]);
            PrevCharSize(s, i) == if i - k <= 4 && !IsContinuation(s[k]) then Some(i - k) else None
  {
    var k := LastStart(s[..i]);
    assert forall j :: k < j < i ==> IsContinuation(s[..i][j]) && s[..i][j] == s[j];
  }

  /** No long run straddles the start of a character that is short enough. */
  lemma NoLongRunIn(s: seq<byte>, k: nat)
    requires 0 <= k < |s| && |s| <= k + 4 && !IsContinuation(s[k])
    ensures HasLongRun(s) ==> HasLongRun(s[..k])
  {
    if HasLongRun(s) {
      var j :| LongRunAt(s, j);
      assert LongRunAt(s[..k], j);
    }
  }

  /** How far the reversal has come: it has yet to do the first `i` bytes. */
  ghost predicate ComesTo(s: text, c: Cursor, i: nat) {
    (c == END && i == |s|) || c.i == i < |s|
  }

  lemma ReversalStuck(s: text, c: Cursor, i: nat)
    requires ComesTo(s, c, i) && 0 < i && InText(s, c) && !IsContinuation(s[0]) && Backward(s, c).None?
    ensures HasLongRun(s)
  {
    assert PrevCharSize(s, i).None?;
    assert LongRunAt(s, i - 4);
  }

  /** The last character of the first `i` bytes, if it is short enough, begins at `k`. */
  lemma ReversedFrom(s: seq<byte>, i: nat, k: nat)
    requires k < i <= |s| && PrevCharSize(s, i) == Some(i - k)
    ensures Reversed(s[..i]) == s[k..i] + Reversed(s[..k])
    ensures HasLongRun(s[..i]) ==> HasLongRun(s[..k])
  {
    PrevCharSizeIsLastStart(s, i);
    NoLongRunIn(s[..i], k);
    assert s[..i][..k] == s[..k] && s[..i][k..] == s[k..i];
  }

  /** One step of the reversal. */
  lemma ReversedOne(s: text, c: Cursor, i: nat, b: Cursor, buff: seq<byte>)
    requires ComesTo(s, c, i) && 0 < i && InText(s, c) && Backward(s, c) == Some(b)
    requires Reversed(s) == buff + Reversed(s[..i])
    ensures b.i < i && !IsContinuation(s[b.i])
    ensures Reversed(s) == buff + Piece(s, b) + Reversed(s[..b.i])
    ensures HasLongRun(s[..i]) ==> HasLongRun(s[..b.i])
  {
    ReversedFrom(s, i, b.i);
    Associates(buff, s[b.i..i], Reversed(s[..b.i]));
  }

  lemma Associates(a: seq<byte>, b: seq<byte>, c: seq<byte>)
    ensures a + (b + c) == a + b + c
  {}

  lemma NothingLeft(s: seq<byte>, k: nat)
    requires k <= |s| && k == 0
    ensures Reversed(s[..k]) == [] && !HasLongRun(s[..k])
  {}

  /** Walks backwards from the end to the beginning; it throws exactly on the strings that cannot be reversed. */
  method Reverse(s: text) returns (r: Result<seq<byte>, Invalid>)
    ensures r == if CanReverse(s) then Success(Reversed(s)) else Failure(InvalidUtf8String)
  {
    var begin := Begin(s);
    if begin.None? {
      return Failure(InvalidUtf8String);
    }
    var buff: seq<byte> := [];
    var current := new Utf8Iterator.AtEnd(s);
    ghost var k := |s|;
    assert s[..k] == s;
    while current.i != begin.value.i
      invariant current.Valid() && current.data == s && fresh(current)
      invariant 0 <= k <= |s| && (k == |s| || !IsContinuation(s[k]))
      invariant ComesTo(s, current.Now(), k)
      invariant Reversed(s) == buff + Reversed(s[..k])
      invariant HasLongRun(s) ==> HasLongRun(s[..k])
      decreases k
    {
      LeadIsNoContinuation(s[0]);
      var c := current.DerefBefore();
      if c.Failure? {
        ReversalStuck(s, current.Now(), k);
        return Failure(InvalidUtf8String);
      }
      ReversedOne(s, current.Now(), k, Backward(s, current.Now()).value, buff);
      buff := buff + c.value;
      var _ := current.Decrement();
      k := current.i;
    }
    NothingLeft(s, k);
    assert buff + [] == buff;
    return Success(buff);
  }
}

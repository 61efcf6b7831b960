/**
  Strings and builders over the shared byte heap, as a state machine on values, and what every run of it keeps.

  A string is small, owns its block, or shares bytes of some block. The operations below are what the methods of
  `immutable_string` and `string_builder` do to the heap and to the strings and builders they touch, including
  the strings they silently flip from owned to shared.
 */
module StringTheory {

  import opened Words
  import opened Folds
  import opened Hash
  import opened ByteHeap
  import opened StringLayout
  import opened StringObjects

  datatype Str = Str(rep: Rep, hash: u32)

  datatype Builder = Builder(buffer: u64, pos: u64, capacity: u64, moved: nat)

  datatype World = World(heap: Heap, strings: map<ImmutableString, Str>, builders: map<StringBuilder, Builder>)

  // ---------------------------------------------------------------------------------------------
  // Well-formed worlds
  // ---------------------------------------------------------------------------------------------

  /** The addresses a string claims: an owned block with its terminator, or the bytes it shares. */
  function Lo(rep: Rep): nat {
    if rep.Small? then 0 else rep.data
  }

  function Hi(rep: Rep): nat {
    match rep
    case Small(_) => 0
    case Owned(p, n) => p + n + 1
    case Shared(p, n) => p + n
  }

  predicate Apart(lo: nat, hi: nat, lo': nat, hi': nat) {
    hi <= lo' || hi' <= lo
  }

  ghost predicate StringOk(h: Heap, rep: Rep) {
    match rep
    case Small(chars) => |chars| <= MAX_SMALL_SIZE
    case Owned(p, n) => p in h.blocks && h.blocks[p] == n + 1 && Live(h, p, n + 1) && h.bytes[p + n] == 0
    case Shared(p, n) => Live(h, p, n) && p + n <= h.next
  }

  predicate IsPow2(n: nat) {
    n == 1 || (n > 0 && n % 2 == 0 && IsPow2(n / 2))
  }

  ghost predicate BuilderOk(h: Heap, b: Builder) {
    if b.buffer == 0 then
      b.pos == b.capacity == b.moved == 0
    else
      && b.buffer in h.blocks && h.blocks[b.buffer] == b.capacity && Live(h, b.buffer, b.capacity)
      && b.pos < b.capacity && IsPow2(b.capacity) && b.moved < b.capacity
  }

  /** What a string claims must stay apart from what owners and builders claim. */
  ghost predicate StringsApart(a: Rep, b: Rep) {
    a.Owned? || b.Owned? ==> Apart(Lo(a), Hi(a), Lo(b), Hi(b))
  }

  ghost predicate BuilderApart(b: Builder, rep: Rep) {
    b.buffer != 0 ==> Apart(b.buffer, b.buffer + b.capacity, Lo(rep), Hi(rep))
  }

  ghost predicate BuildersApart(b: Builder, c: Builder) {
    b.buffer != 0 && c.buffer != 0 ==> Apart(b.buffer, b.buffer + b.capacity, c.buffer, c.buffer + c.capacity)
  }

  /**
    Memory safety. Every string points at bytes that were not freed; an owned block and a builder's buffer are
    referenced by nobody else; an owned string is terminated.
   */
  ghost predicate Safe(w: World) {
    && WellFormed(w.heap)
    && (forall s :: s in w.strings ==> StringOk(w.heap, w.strings[s].rep))
    && (forall b :: b in w.builders ==> BuilderOk(w.heap, w.builders[b]))
    && (forall s, t {:trigger StringsApart(w.strings[s].rep, w.strings[t].rep)} ::
          s in w.strings && t in w.strings && s != t ==> StringsApart(w.strings[s].rep, w.strings[t].rep))
    && (forall b, s {:trigger BuilderApart(w.builders[b], w.strings[s].rep)} ::
          b in w.builders && s in w.strings ==> BuilderApart(w.builders[b], w.strings[s].rep))
    && (forall b, c {:trigger BuildersApart(w.builders[b], w.builders[c])} ::
          b in w.builders && c in w.builders && b != c ==> BuildersApart(w.builders[b], w.builders[c]))
  }

  // ---------------------------------------------------------------------------------------------
  // The values strings and builders stand for
  // ---------------------------------------------------------------------------------------------

  function SizeOf(rep: Rep): nat {
    if rep.Small? then |rep.chars| else rep.size
  }

  ghost function Contents(h: Heap, rep: Rep): (c: seq<byte>)
    requires StringOk(h, rep)
    ensures |c| == SizeOf(rep)
  {
    match rep
    case Small(chars) => chars
    case Owned(p, n) => Read(h, p, n)
    case Shared(p, n) => Read(h, p, n)
  }

  ghost function BuilderContents(h: Heap, b: Builder): seq<byte>
    requires BuilderOk(h, b)
  {
    if b.buffer == 0 then [] else Read(h, b.buffer, b.pos)
  }

  datatype Values = Values(strings: map<ImmutableString, seq<byte>>, builders: map<StringBuilder, seq<byte>>)

  ghost function Abs(w: World): Values
    requires Safe(w)
  {
    Values(map s | s in w.strings :: Contents(w.heap, w.strings[s].rep),
           map b | b in w.builders :: BuilderContents(w.heap, w.builders[b]))
  }

  /** The hash of a byte sequence: the base-31 polynomial of its bytes, mixed. */
  function HashOf(s: seq<byte>): u32 {
    IntegerU32(Polynomial(s))
  }

  function Polynomial(s: seq<byte>): u32 {
    if s == [] then 0 else OrderedStep(Polynomial(s[..|s| - 1]), s[|s| - 1])
  }

  /** The base-31 number whose digits are the bytes, the first the most significant, cut to 32 bits. */
  lemma {:induction false} PolynomialIsBase31(s: seq<byte>)
    ensures Polynomial(s) == Wrap32(Base31(s))
  {
    if s != [] {
      var n := |s| - 1;
      PolynomialIsBase31(s[..n]);
      Base31Appends(s[..n], s[n]);
      assert s[..n] + [s[n]] == s;
      AddDigit(Polynomial(s[..n]), Base31(s[..n]), s[n]);
    }
  }

  lemma AddDigit(p: u32, b: nat, e: u32)
    requires p == Wrap32(b)
    ensures OrderedStep(p, e) == Wrap32(31 * b + e)
  {
    WrapInside(b, e);
  }

  /** A cached hash is either absent or the hash of what the string holds. */
  ghost predicate HashAgrees(hash: u32, contents: seq<byte>) {
    hash == 0 || hash == HashOf(contents)
  }

  ghost predicate HashesAgree(w: World)
    requires Safe(w)
  {
    forall s :: s in w.strings ==> HashAgrees(w.strings[s].hash, Abs(w).strings[s])
  }

  // ---------------------------------------------------------------------------------------------
  // Small steps that the operations are made of
  // ---------------------------------------------------------------------------------------------

  function PutString(w: World, s: ImmutableString, str: Str): World {
    w.(strings := w.strings[s := str])
  }

  function PutBuilder(w: World, b: StringBuilder, bld: Builder): World {
    w.(builders := w.builders[b := bld])
  }

  function Allocate(w: World, data: seq<byte>): World {
    w.(heap := Alloc(w.heap, data))
  }

  predicate Fits(w: World, n: nat) {
    w.heap.next + n <= TWO_64
  }

  /** The string's claims on the heap end; an owned block is freed. */
  ghost function DropString(w: World, s: ImmutableString): World
    requires Safe(w) && s in w.strings
  {
    var rep := w.strings[s].rep;
    World(if rep.Owned? then Free(w.heap, rep.data) else w.heap, w.strings - {s}, w.builders)
  }

  function AsShared(str: Str): Str {
    Str(SharedRep(str.rep), str.hash)
  }

  /** A heap in which everything that is claimed still reads the same. */
  ghost predicate ReadsTheSame(w: World, h: Heap)
    requires Safe(w)
  {
    && WellFormed(h)
    && (forall s :: s in w.strings ==> StringReadsTheSame(w.heap, h, w.strings[s].rep))
    && (forall b :: b in w.builders ==> BuilderReadsTheSame(w.heap, h, w.builders[b]))
  }

  ghost predicate StringReadsTheSame(g: Heap, h: Heap, rep: Rep)
    requires StringOk(g, rep)
  {
    StringOk(h, rep) && Contents(h, rep) == Contents(g, rep)
  }

  ghost predicate BuilderReadsTheSame(g: Heap, h: Heap, b: Builder)
    requires BuilderOk(g, b)
  {
    BuilderOk(h, b) && BuilderContents(h, b) == BuilderContents(g, b)
  }

  lemma HeapChangeRefines(w: World, h: Heap)
    requires Safe(w) && ReadsTheSame(w, h)
    ensures Safe(w.(heap := h)) && Abs(w.(heap := h)) == Abs(w)
  {
    var v := w.(heap := h);
    assert Abs(v).strings == Abs(w).strings;
    assert Abs(v).builders == Abs(w).builders;
  }

  lemma AllocateRefines(w: World, data: seq<byte>)
    requires Safe(w) && Fits(w, |data|)
    ensures Safe(Allocate(w, data)) && Abs(Allocate(w, data)) == Abs(w)
  {
    AllocReads(w.heap, data);
    forall s | s in w.strings ensures StringReadsTheSame(w.heap, Alloc(w.heap, data), w.strings[s].rep) {
      AllocKeepsString(w.heap, data, w.strings[s].rep);
    }
    forall b | b in w.builders ensures BuilderReadsTheSame(w.heap, Alloc(w.heap, data), w.builders[b]) {
      AllocKeepsBuilder(w.heap, data, w.builders[b]);
    }
    HeapChangeRefines(w, Alloc(w.heap, data));
  }

  lemma AllocKeepsString(h: Heap, data: seq<byte>, rep: Rep)
    requires WellFormed(h) && StringOk(h, rep)
    ensures StringOk(Alloc(h, data), rep) && Contents(Alloc(h, data), rep) == Contents(h, rep)
    ensures Hi(rep) <= h.next
  {
    if !rep.Small? {
      AllocKeeps(h, data, Lo(rep), Hi(rep) - Lo(rep));
      assert rep.Owned? ==> Hi(rep) - 1 in h.bytes;
    }
  }

  lemma AllocKeepsBuilder(h: Heap, data: seq<byte>, b: Builder)
    requires WellFormed(h) && BuilderOk(h, b)
    ensures BuilderOk(Alloc(h, data), b) && BuilderContents(Alloc(h, data), b) == BuilderContents(h, b)
    ensures b.buffer + b.capacity <= h.next
  {
    if b.buffer != 0 {
      AllocKeeps(h, data, b.buffer, b.capacity);
      assert b.buffer + b.capacity - 1 in h.bytes;
    }
  }

  lemma FreeKeepsString(h: Heap, p: nat, rep: Rep)
    requires p in h.blocks && h.blocks[p] > 0 && StringOk(h, rep)
    requires Apart(p, p + h.blocks[p], Lo(rep), Hi(rep))
    ensures StringOk(Free(h, p), rep) && Contents(Free(h, p), rep) == Contents(h, rep)
  {
    if !rep.Small? {
      FreeKeeps(h, p, Lo(rep), Hi(rep) - Lo(rep));
    }
  }

  lemma FreeKeepsBuilder(h: Heap, p: nat, b: Builder)
    requires p in h.blocks && h.blocks[p] > 0 && BuilderOk(h, b)
    requires b.buffer != 0 ==> Apart(p, p + h.blocks[p], b.buffer, b.buffer + b.capacity)
    ensures BuilderOk(Free(h, p), b) && BuilderContents(Free(h, p), b) == BuilderContents(h, b)
  {
    if b.buffer != 0 {
      FreeKeeps(h, p, b.buffer, b.capacity);
    }
  }

  /** Freeing a block nobody claims changes no value. */
  lemma FreeRefines(w: World, p: nat)
    requires Safe(w) && p in w.heap.blocks && w.heap.blocks[p] > 0
    requires forall s :: s in w.strings ==> Apart(p, p + w.heap.blocks[p], Lo(w.strings[s].rep), Hi(w.strings[s].rep))
    requires forall b :: b in w.builders && w.builders[b].buffer != 0 ==>
               Apart(p, p + w.heap.blocks[p], w.builders[b].buffer, w.builders[b].buffer + w.builders[b].capacity)
    ensures var v := w.(heap := Free(w.heap, p));
            Safe(v) && Abs(v) == Abs(w)
  {
    forall s | s in w.strings ensures StringReadsTheSame(w.heap, Free(w.heap, p), w.strings[s].rep) {
      FreeKeepsString(w.heap, p, w.strings[s].rep);
    }
    forall b | b in w.builders ensures BuilderReadsTheSame(w.heap, Free(w.heap, p), w.builders[b]) {
      FreeKeepsBuilder(w.heap, p, w.builders[b]);
    }
    HeapChangeRefines(w, Free(w.heap, p));
  }

  lemma DropStringRefines(w: World, s: ImmutableString)
    requires Safe(w) && s in w.strings
    ensures Safe(DropString(w, s)) && Abs(DropString(w, s)) == Abs(w).(strings := Abs(w).strings - {s})
  {
    var rep := w.strings[s].rep;
    var v := World(w.heap, w.strings - {s}, w.builders);
    assert Abs(v).strings == Abs(w).strings - {s};
    if rep.Owned? {
      assert forall t :: t in v.strings ==> StringsApart(rep, w.strings[t].rep);
      assert forall b :: b in v.builders ==> BuilderApart(w.builders[b], rep);
      FreeRefines(v, rep.data);
    }
  }

  /** What `rep` claims may be added beside everyone but `s`. */
  ghost predicate FitsBeside(w: World, s: ImmutableString, rep: Rep) {
    && StringOk(w.heap, rep)
    && (forall t :: t in w.strings && t != s ==> StringsApart(rep, w.strings[t].rep))
    && (forall b :: b in w.builders ==> BuilderApart(w.builders[b], rep))
  }

  lemma PutStringRefines(w: World, s: ImmutableString, str: Str)
    requires Safe(w) && FitsBeside(w, s, str.rep)
    ensures Safe(PutString(w, s, str))
    ensures Abs(PutString(w, s, str)) == Abs(w).(strings := Abs(w).strings[s := Contents(w.heap, str.rep)])
  {
    var v := PutString(w, s, str);
    PutStringIsSafe(w, s, str);
    assert Abs(v).builders == Abs(w).builders;
    assert Abs(v).strings == Abs(w).strings[s := Contents(w.heap, str.rep)];
  }

  lemma PutStringIsSafe(w: World, s: ImmutableString, str: Str)
    requires Safe(w) && FitsBeside(w, s, str.rep)
    ensures Safe(PutString(w, s, str))
  {
    var v := PutString(w, s, str);
    forall t | t in v.strings
      ensures StringOk(v.heap, v.strings[t].rep)
      ensures forall b :: b in v.builders ==> BuilderApart(v.builders[b], v.strings[t].rep)
    {
      assert v.strings[t] == if t == s then str else w.strings[t];
    }
    forall t, u | t in v.strings && u in v.strings && t != u
      ensures StringsApart(v.strings[t].rep, v.strings[u].rep)
    {
      if t == s {
        assert StringsApart(str.rep, w.strings[u].rep);
      } else if u == s {
        assert StringsApart(str.rep, w.strings[t].rep);
      }
    }
  }

  /** A block fresh from the heap may be claimed by anyone. */
  lemma FreshFitsBeside(w: World, data: seq<byte>, s: ImmutableString, rep: Rep)
    requires Safe(w) && Fits(w, |data|)
    requires !rep.Small? && rep.data == w.heap.next && Hi(rep) <= w.heap.next + |data|
    requires StringOk(Alloc(w.heap, data), rep)
    ensures FitsBeside(Allocate(w, data), s, rep)
  {
    forall t | t in w.strings ensures StringsApart(rep, w.strings[t].rep) {
      AllocKeepsString(w.heap, data, w.strings[t].rep);
    }
    forall b | b in w.builders ensures BuilderApart(w.builders[b], rep) {
      AllocKeepsBuilder(w.heap, data, w.builders[b]);
    }
  }

  lemma PutBuilderRefines(w: World, b: StringBuilder, bld: Builder)
    requires Safe(w) && BuilderOk(w.heap, bld)
    requires forall s :: s in w.strings ==> BuilderApart(bld, w.strings[s].rep)
    requires forall c :: c in w.builders && c != b ==> BuildersApart(bld, w.builders[c])
    ensures Safe(PutBuilder(w, b, bld))
    ensures Abs(PutBuilder(w, b, bld)) == Abs(w).(builders := Abs(w).builders[b := BuilderContents(w.heap, bld)])
  {
    var v := PutBuilder(w, b, bld);
    PutBuilderIsSafe(w, b, bld);
    assert Abs(v).strings == Abs(w).strings;
    assert Abs(v).builders == Abs(w).builders[b := BuilderContents(w.heap, bld)];
  }

  lemma PutBuilderIsSafe(w: World, b: StringBuilder, bld: Builder)
    requires Safe(w) && BuilderOk(w.heap, bld)
    requires forall s :: s in w.strings ==> BuilderApart(bld, w.strings[s].rep)
    requires forall c :: c in w.builders && c != b ==> BuildersApart(bld, w.builders[c])
    ensures Safe(PutBuilder(w, b, bld))
  {
    var v := PutBuilder(w, b, bld);
    forall c | c in v.builders
      ensures BuilderOk(v.heap, v.builders[c])
      ensures forall s :: s in v.strings ==> BuilderApart(v.builders[c], v.strings[s].rep)
    {
      assert v.builders[c] == if c == b then bld else w.builders[c];
    }
    forall c, d | c in v.builders && d in v.builders && c != d
      ensures BuildersApart(v.builders[c], v.builders[d])
    {
      if c == b {
        assert BuildersApart(bld, w.builders[d]);
      } else if d == b {
        assert BuildersApart(bld, w.builders[c]);
      }
    }
  }
}

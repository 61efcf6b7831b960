/**
  Every operation on strings and builders, the plain values it should compute, and the proof that it does.
 */
module StringOperations {

  import opened Words
  import opened ByteHeap
  import opened StringLayout
  import opened StringObjects
  import opened StringTheory

  // ---------------------------------------------------------------------------------------------
  // Capacities
  // ---------------------------------------------------------------------------------------------

  /** `std::bit_ceil` */
  function BitCeil(n: nat): (r: nat)
    ensures n <= r && IsPow2(r)
  {
    if n <= 1 then 1 else 2 * BitCeil((n + 1) / 2)
  }

  /** It is the least power of two that is no smaller. */
  lemma {:induction false} BitCeilIsLeast(n: nat, p: nat)
    requires IsPow2(p) && n <= p
    ensures BitCeil(n) <= p
  {
    if n > 1 {
      BitCeilIsLeast((n + 1) / 2, p / 2);
    }
  }

  lemma {:induction false} PowersOfTwoDouble(a: nat, b: nat)
    requires IsPow2(a) && IsPow2(b) && a < b
    ensures 2 * a <= b
  {
    if a > 1 {
      PowersOfTwoDouble(a / 2, b / 2);
    }
  }

  // ---------------------------------------------------------------------------------------------
  // Operations on strings
  // ---------------------------------------------------------------------------------------------

  /** `init_small` or `init_large_owned`, keeping whatever hash the storage had. */
  function InitBytes(w: World, s: ImmutableString, data: seq<byte>, hash: u32): World
    requires |data| > MAX_SMALL_SIZE ==> Fits(w, |data| + 1)
  {
    if |data| <= MAX_SMALL_SIZE then
      PutString(w, s, Str(Small(data), hash))
    else
      PutString(Allocate(w, data + [0]), s, Str(Owned(w.heap.next, |data|), hash))
  }

  lemma InitBytesRefines(w: World, s: ImmutableString, data: seq<byte>, hash: u32)
    requires Safe(w) && (|data| > MAX_SMALL_SIZE ==> Fits(w, |data| + 1))
    ensures Safe(InitBytes(w, s, data, hash))
    ensures Abs(InitBytes(w, s, data, hash)) == Abs(w).(strings := Abs(w).strings[s := data])
  {
    if |data| <= MAX_SMALL_SIZE {
      PutStringRefines(w, s, Str(Small(data), hash));
    } else {
      OwnFreshBlock(w, s, data, |data|, hash);
    }
  }

  /** A string takes a block of `data` and a terminator. */
  lemma OwnFreshBlock(w: World, s: ImmutableString, data: seq<byte>, n: nat, hash: u32)
    requires Safe(w) && n == |data| && Fits(w, n + 1)
    ensures var v := PutString(Allocate(w, data + [0]), s, Str(Owned(w.heap.next, n), hash));
            Safe(v) && Abs(v) == Abs(w).(strings := Abs(w).strings[s := data])
  {
    var v := Allocate(w, data + [0]);
    AllocateRefines(w, data + [0]);
    FreshBlockCanBeOwned(w, s, data);
    PutStringRefines(v, s, Str(Owned(w.heap.next, n), hash));
  }

  lemma FreshBlockCanBeOwned(w: World, s: ImmutableString, data: seq<byte>)
    requires Safe(w) && Fits(w, |data| + 1)
    ensures var v := Allocate(w, data + [0]);
            var rep := Owned(w.heap.next, |data|);
            FitsBeside(v, s, rep) && Contents(v.heap, rep) == data
  {
    var block := data + [0];
    var v := Allocate(w, block);
    var rep := Owned(w.heap.next, |data|);
    FreshBlockHolds(w.heap, data);
    FreshFitsBeside(w, block, s, rep);
  }

  lemma FreshBlockHolds(h: Heap, data: seq<byte>)
    requires WellFormed(h) && h.next + |data| + 1 <= TWO_64
    ensures var rep := Owned(h.next, |data|);
            StringOk(Alloc(h, data + [0]), rep) && Contents(Alloc(h, data + [0]), rep) == data
  {
    FreshBlockIsTerminated(h, data);
    FreshBlockReads(h, data);
  }

  lemma FreshBlockIsTerminated(h: Heap, data: seq<byte>)
    requires WellFormed(h) && h.next + |data| + 1 <= TWO_64
    ensures StringOk(Alloc(h, data + [0]), Owned(h.next, |data|))
  {
    var block := data + [0];
    AllocReads(h, block);
    assert Alloc(h, block).bytes[h.next + |data|] == block[|data|];
  }

  lemma FreshBlockReads(h: Heap, data: seq<byte>)
    requires WellFormed(h) && h.next + |data| + 1 <= TWO_64
    ensures Live(Alloc(h, data + [0]), h.next, |data|)
    ensures Read(Alloc(h, data + [0]), h.next, |data|) == data
  {
    var block := data + [0];
    AllocReads(h, block);
    ReadSlice(Alloc(h, block), h.next, |block|, 0, |data|);
    assert block[0..|data|] == data;
  }

  function Repeat(c: byte, n: nat): seq<byte> {
    seq(n, _ => c)
  }

  /** `init_large_fill` takes its size as a `u8`, so a large size is cut to its low byte. */
  function FilledSize(size: u64): nat {
    if size <= MAX_SMALL_SIZE then size else size % 256
  }

  function InitFill(w: World, s: ImmutableString, size: u64, c: byte): World
    requires size > MAX_SMALL_SIZE ==> Fits(w, FilledSize(size) + 1)
  {
    if size <= MAX_SMALL_SIZE then
      PutString(w, s, Str(Small(Repeat(c, size)), 0))
    else
      PutString(Allocate(w, Repeat(c, FilledSize(size)) + [0]), s, Str(Owned(w.heap.next, FilledSize(size)), 0))
  }

  lemma InitFillRefines(w: World, s: ImmutableString, size: u64, c: byte)
    requires Safe(w) && (size > MAX_SMALL_SIZE ==> Fits(w, FilledSize(size) + 1))
    ensures Safe(InitFill(w, s, size, c))
    ensures Abs(InitFill(w, s, size, c)) == Abs(w).(strings := Abs(w).strings[s := Repeat(c, FilledSize(size))])
  {
    if size <= MAX_SMALL_SIZE {
      PutStringRefines(w, s, Str(Small(Repeat(c, size)), 0));
    } else {
      OwnFreshBlock(w, s, Repeat(c, FilledSize(size)), FilledSize(size), 0);
    }
  }

  /** Up to 23 characters the size is right; above, what is left of it is its remainder by 256. */
  lemma FilledSizeIs(size: u64)
    ensures size <= 23 ==> FilledSize(size) == size
    ensures size > 23 ==> FilledSize(size) < 256 && (size - FilledSize(size)) % 256 == 0
  {}

  /** A string filled by size holds that many characters exactly when the size fits in a byte. */
  lemma FillIsExactIffSizeFitsInByte(size: u64, c: byte)
    ensures Repeat(c, FilledSize(size)) == Repeat(c, size) <==> size < 256
  {
    assert |Repeat(c, FilledSize(size))| == FilledSize(size) && |Repeat(c, size)| == size;
  }

  /** The source goes from owned to shared; both strings then share its bytes. */
  ghost function Copy(w: World, s: ImmutableString, src: ImmutableString): World
    requires src in w.strings
  {
    var shared := AsShared(w.strings[src]);
    PutString(PutString(w, src, shared), s, shared)
  }

  lemma ShareRefines(w: World, s: ImmutableString)
    requires Safe(w) && s in w.strings
    ensures Safe(PutString(w, s, AsShared(w.strings[s])))
    ensures Abs(PutString(w, s, AsShared(w.strings[s]))) == Abs(w)
  {
    var str := w.strings[s];
    var rep := AsShared(str).rep;
    assert str.rep.Owned? ==> str.rep.data + str.rep.size in w.heap.bytes;
    forall t | t in w.strings && t != s ensures StringsApart(rep, w.strings[t].rep) {
      assert StringsApart(str.rep, w.strings[t].rep);
    }
    forall b | b in w.builders ensures BuilderApart(w.builders[b], rep) {
      assert BuilderApart(w.builders[b], str.rep);
    }
    PutStringRefines(w, s, AsShared(str));
    assert Contents(w.heap, rep) == Contents(w.heap, str.rep);
    assert Abs(w).strings[s := Contents(w.heap, rep)] == Abs(w).strings;
  }

  /** Another string comes to share a slice of what a shared string shares. */
  lemma AliasRefines(w: World, src: ImmutableString, s: ImmutableString, i: nat, m: nat, hash: u32)
    requires Safe(w) && src in w.strings && w.strings[src].rep.Shared?
    requires i + m <= |Abs(w).strings[src]| && w.strings[src].rep.data + i < TWO_64
    ensures var v := PutString(w, s, Str(Shared(w.strings[src].rep.data + i, m), hash));
            Safe(v) && Abs(v) == Abs(w).(strings := Abs(w).strings[s := Abs(w).strings[src][i..i + m]])
  {
    AliasFitsBeside(w, src, s, i, m);
    PutStringRefines(w, s, Str(Shared(w.strings[src].rep.data + i, m), hash));
  }

  lemma AliasFitsBeside(w: World, src: ImmutableString, s: ImmutableString, i: nat, m: nat)
    requires Safe(w) && src in w.strings && w.strings[src].rep.Shared?
    requires i + m <= |Abs(w).strings[src]| && w.strings[src].rep.data + i < TWO_64
    ensures FitsBeside(w, s, Shared(w.strings[src].rep.data + i, m))
    ensures Contents(w.heap, Shared(w.strings[src].rep.data + i, m)) == Abs(w).strings[src][i..i + m]
  {
    var whole := w.strings[src].rep;
    var rep := Shared(whole.data + i, m);
    ReadSlice(w.heap, whole.data, whole.size, i, m);
    forall t | t in w.strings && t != s ensures StringsApart(rep, w.strings[t].rep) {
      if t != src {
        assert StringsApart(whole, w.strings[t].rep);
      }
    }
    forall b | b in w.builders ensures BuilderApart(w.builders[b], rep) {
      assert BuilderApart(w.builders[b], whole);
    }
  }

  /** One string takes the storage of another that shares or is small. */
  lemma DuplicateRefines(w: World, src: ImmutableString, s: ImmutableString)
    requires Safe(w) && src in w.strings && !w.strings[src].rep.Owned?
    ensures Safe(PutString(w, s, w.strings[src]))
    ensures Abs(PutString(w, s, w.strings[src])) == Abs(w).(strings := Abs(w).strings[s := Abs(w).strings[src]])
  {
    var str := w.strings[src];
    if str.rep.Small? {
      PutStringRefines(w, s, str);
    } else {
      var c := Abs(w).strings[src];
      assert |c| == str.rep.size && c[0..0 + |c|] == c;
      AliasRefines(w, src, s, 0, |c|, str.hash);
    }
  }

  lemma CopyRefines(w: World, s: ImmutableString, src: ImmutableString)
    requires Safe(w) && src in w.strings && s !in w.strings
    ensures Safe(Copy(w, s, src))
    ensures Abs(Copy(w, s, src)) == Abs(w).(strings := Abs(w).strings[s := Abs(w).strings[src]])
  {
    ShareRefines(w, src);
    DuplicateRefines(PutString(w, src, AsShared(w.strings[src])), src, s);
  }

  /** The source is left small and empty, with its cached hash. */
  ghost function Move(w: World, s: ImmutableString, src: ImmutableString): World
    requires src in w.strings
  {
    var str := w.strings[src];
    PutString(PutString(w, src, Str(Small([]), str.hash)), s, str)
  }

  lemma MoveRefines(w: World, s: ImmutableString, src: ImmutableString)
    requires Safe(w) && src in w.strings && s !in w.strings
    ensures Safe(Move(w, s, src))
    ensures Abs(Move(w, s, src)) == Abs(w).(strings := Abs(w).strings[src := []][s := Abs(w).strings[src]])
  {
    var str := w.strings[src];
    PutStringRefines(w, src, Str(Small([]), str.hash));
    var v := PutString(w, src, Str(Small([]), str.hash));
    forall t | t in v.strings && t != s ensures StringsApart(str.rep, v.strings[t].rep) {
      if t != src {
        assert StringsApart(str.rep, w.strings[t].rep);
      }
    }
    PutStringRefines(v, s, str);
  }

  /** The old block of the target is freed first; then as for a copy, hash included. */
  ghost function Assign(w: World, dst: ImmutableString, src: ImmutableString): World
    requires Safe(w) && dst in w.strings && src in w.strings
  {
    if dst == src then w else
    var dropped := DropString(w, dst);
    var shared := AsShared(w.strings[src]);
    PutString(PutString(dropped, src, shared), dst, shared)
  }

  lemma AssignRefines(w: World, dst: ImmutableString, src: ImmutableString)
    requires Safe(w) && dst in w.strings && src in w.strings
    ensures Safe(Assign(w, dst, src))
    ensures Abs(Assign(w, dst, src)) == Abs(w).(strings := Abs(w).strings[dst := Abs(w).strings[src]])
  {
    if dst == src {
      SameEntry(Abs(w).strings, dst);
    } else {
      DropStringRefines(w, dst);
      CopyRefines(DropString(w, dst), dst, src);
      ReplacingIsAdding(Abs(w).strings, dst, Abs(w).strings[src]);
    }
  }

  lemma SameEntry<K, V>(m: map<K, V>, k: K)
    requires k in m
    ensures m[k := m[k]] == m
  {}

  lemma ReplacingIsAdding<K, V>(m: map<K, V>, k: K, v: V)
    ensures (m - {k})[k := v] == m[k := v]
  {}

  /** Assignment from characters: the old block is freed, the cached hash stays. */
  ghost function AssignBytes(w: World, dst: ImmutableString, data: seq<byte>): World
    requires Safe(w) && dst in w.strings && (|data| > MAX_SMALL_SIZE ==> Fits(w, |data| + 1))
  {
    InitBytes(DropString(w, dst), dst, data, w.strings[dst].hash)
  }

  lemma AssignBytesRefines(w: World, dst: ImmutableString, data: seq<byte>)
    requires Safe(w) && dst in w.strings && (|data| > MAX_SMALL_SIZE ==> Fits(w, |data| + 1))
    ensures Safe(AssignBytes(w, dst, data))
    ensures Abs(AssignBytes(w, dst, data)) == Abs(w).(strings := Abs(w).strings[dst := data])
  {
    DropStringRefines(w, dst);
    InitBytesRefines(DropString(w, dst), dst, data, w.strings[dst].hash);
    ReplacingIsAdding(Abs(w).strings, dst, data);
  }

  /** How many characters the substring constructor takes; the sum it tests wraps. */
  function SubstrCount(length: u64, pos: u64, count: u64): u64
    requires pos <= length
  {
    if count == NPOS || length < Wrap64(pos + count) then length - pos else count
  }

  /**
    The constructor clamps the count to what is left of the string exactly when position and count do not wrap
    (or the count is `npos`). When they wrap it takes more characters than there are.
   */
  lemma SubstrClampsIffNoWrap(length: u64, pos: u64, count: u64)
    requires pos <= length
    ensures SubstrCount(length, pos, count) == (if count <= length - pos then count else length - pos)
            <==> count == NPOS || pos + count < TWO_64
    ensures count != NPOS && TWO_64 <= pos + count ==>
              SubstrCount(length, pos, count) > length - pos && SubstrCount(length, pos, count) == count
  {}

  datatype SubstrPath = InPlace | CopiedOut | SharedOut

  /** Which branch the constructor takes for a count; the difference it tests wraps. */
  function PathFor(length: u64, count: u64): SubstrPath {
    if count <= MAX_SMALL_SIZE then InPlace
    else if Wrap64(length - count) > MAX_SHARED_DIFFERENCE then CopiedOut
    else SharedOut
  }

  /**
    Where position and count wrap, the source is shared, whatever its category, exactly when the count is so large that
    the difference wraps to a small number; a small source does not survive that.
   */
  lemma WrappedSubstrPath(length: u64, pos: u64, count: u64, store: storage)
    requires pos <= length && count != NPOS && TWO_64 <= pos + count
    ensures PathFor(length, SubstrCount(length, pos, count)) == SharedOut
            <==> count > MAX_SMALL_SIZE
                 && (if count <= length then length - count else length + TWO_64 - count) <= MAX_SHARED_DIFFERENCE
    ensures length <= MAX_SMALL_SIZE ==>
              PathFor(length, SubstrCount(length, pos, count))
              == if length + TWO_64 - count <= MAX_SHARED_DIFFERENCE then SharedOut else CopiedOut
    ensures WellTagged(SetCategory(store, LargeShared)) && Decode(SetCategory(store, LargeShared)).Shared?
  {
    SetCategoryKeepsWords(store, LargeShared);
    assert Wrap64(length - count) == if count <= length then length - count else length + TWO_64 - count;
  }

  lemma SubstrStaysInside(length: nat, pos: u64, count: u64)
    requires CanSubstr(length, pos, count)
    ensures pos + SubstrCount(length, pos, count) <= length
  {}

  predicate CanSubstr(length: nat, pos: u64, count: u64) {
    length < TWO_64 && pos <= length && (count == NPOS || pos + count < TWO_64)
  }

  ghost function Substr(w: World, s: ImmutableString, src: ImmutableString, pos: u64, count: u64): World
    requires Safe(w) && src in w.strings && CanSubstr(|Abs(w).strings[src]|, pos, count)
    requires Fits(w, |Abs(w).strings[src]| + 1)
  {
    Slice(w, s, src, pos, SubstrCount(|Abs(w).strings[src]|, pos, count))
  }

  lemma SubstrRefines(w: World, s: ImmutableString, src: ImmutableString, pos: u64, count: u64,
                      whole: seq<byte>, n: nat, v: World)
    requires Safe(w) && src in w.strings && s !in w.strings && whole == Abs(w).strings[src]
    requires CanSubstr(|whole|, pos, count) && n == SubstrCount(|whole|, pos, count) && Fits(w, |whole| + 1)
    requires v == Substr(w, s, src, pos, count)
    ensures Safe(v) && pos + n <= |whole|
    ensures Abs(v) == Abs(w).(strings := Abs(w).strings[s := whole[pos..pos + n]])
  {
    SubstrStaysInside(|whole|, pos, count);
    SliceRefinesTo(w, s, src, pos, n, whole, v);
  }

  ghost function Slice(w: World, s: ImmutableString, src: ImmutableString, pos: nat, n: nat): World
    requires Safe(w) && src in w.strings && pos + n <= |Abs(w).strings[src]|
    requires Fits(w, |Abs(w).strings[src]| + 1)
  {
    LargeStringsAreLarge(w, src);
    SliceInto(w, s, src, w.strings[src], Abs(w).strings[src], pos, n)
  }

  /** A short slice is copied in place, one much shorter than its source is copied out, others share. */
  ghost function SliceInto(w: World, s: ImmutableString, src: ImmutableString, str: Str, whole: seq<byte>, pos: nat, n: nat): World
    requires CanSlice(w, str, whole, pos, n)
  {
    var part := whole[pos..pos + n];
    if n <= MAX_SMALL_SIZE then
      PutString(w, s, Str(Small(part), 0))
    else if |whole| - n > MAX_SHARED_DIFFERENCE then
      InitBytes(w, s, part, 0)
    else
      PutString(PutString(w, src, AsShared(str)), s, Str(Shared(str.rep.data + pos, n), 0))
  }

  predicate CanSlice(w: World, str: Str, whole: seq<byte>, pos: nat, n: nat) {
    && pos + n <= |whole| < TWO_64 && Fits(w, |whole| + 1)
    && (|whole| > MAX_SMALL_SIZE ==> !str.rep.Small? && str.rep.data + |whole| <= TWO_64)
  }

  lemma SliceRefines(w: World, s: ImmutableString, src: ImmutableString, pos: nat, n: nat)
    requires Safe(w) && src in w.strings && s !in w.strings && pos + n <= |Abs(w).strings[src]|
    requires Fits(w, |Abs(w).strings[src]| + 1)
    ensures Safe(Slice(w, s, src, pos, n))
    ensures Abs(Slice(w, s, src, pos, n))
            == Abs(w).(strings := Abs(w).strings[s := Abs(w).strings[src][pos..pos + n]])
  {
    var size := |Abs(w).strings[src]|;
    if n <= MAX_SMALL_SIZE {
      SmallSliceRefines(w, s, src, pos, n);
    } else if size - n > MAX_SHARED_DIFFERENCE {
      OwnedSliceRefines(w, s, src, pos, n);
    } else {
      SharedSliceRefines(w, s, src, pos, n);
    }
  }

  lemma SliceRefinesTo(w: World, s: ImmutableString, src: ImmutableString, pos: nat, n: nat, whole: seq<byte>, v: World)
    requires Safe(w) && src in w.strings && s !in w.strings && whole == Abs(w).strings[src] && pos + n <= |whole|
    requires Fits(w, |whole| + 1) && v == Slice(w, s, src, pos, n)
    ensures Safe(v)
    ensures Abs(v) == Abs(w).(strings := Abs(w).strings[s := whole[pos..pos + n]])
  {
    SliceRefines(w, s, src, pos, n);
  }

  lemma SmallSliceRefines(w: World, s: ImmutableString, src: ImmutableString, pos: nat, n: nat)
    requires Safe(w) && src in w.strings && pos + n <= |Abs(w).strings[src]| && Fits(w, |Abs(w).strings[src]| + 1)
    requires n <= MAX_SMALL_SIZE
    ensures Safe(Slice(w, s, src, pos, n))
    ensures Abs(Slice(w, s, src, pos, n))
            == Abs(w).(strings := Abs(w).strings[s := Abs(w).strings[src][pos..pos + n]])
  {
    PutSmallRefines(w, s, Abs(w).strings[src][pos..pos + n], 0);
  }

  lemma OwnedSliceRefines(w: World, s: ImmutableString, src: ImmutableString, pos: nat, n: nat)
    requires Safe(w) && src in w.strings && pos + n <= |Abs(w).strings[src]| && Fits(w, |Abs(w).strings[src]| + 1)
    requires MAX_SMALL_SIZE < n < |Abs(w).strings[src]| - MAX_SHARED_DIFFERENCE
    ensures Safe(Slice(w, s, src, pos, n))
    ensures Abs(Slice(w, s, src, pos, n))
            == Abs(w).(strings := Abs(w).strings[s := Abs(w).strings[src][pos..pos + n]])
  {
    InitBytesRefines(w, s, Abs(w).strings[src][pos..pos + n], 0);
  }

  lemma SharedSliceRefines(w: World, s: ImmutableString, src: ImmutableString, pos: nat, n: nat)
    requires Safe(w) && src in w.strings && pos + n <= |Abs(w).strings[src]| && Fits(w, |Abs(w).strings[src]| + 1)
    requires s !in w.strings
    requires MAX_SMALL_SIZE < n && |Abs(w).strings[src]| - MAX_SHARED_DIFFERENCE <= n
    ensures Safe(Slice(w, s, src, pos, n))
    ensures Abs(Slice(w, s, src, pos, n))
            == Abs(w).(strings := Abs(w).strings[s := Abs(w).strings[src][pos..pos + n]])
  {
    LargeStringsAreLarge(w, src);
    ShareAndAliasRefines(w, s, src, w.strings[src], pos, n, Slice(w, s, src, pos, n));
  }

  lemma PutSmallRefines(w: World, s: ImmutableString, chars: seq<byte>, hash: u32)
    requires Safe(w) && |chars| <= MAX_SMALL_SIZE
    ensures Safe(PutString(w, s, Str(Small(chars), hash)))
    ensures Abs(PutString(w, s, Str(Small(chars), hash))) == Abs(w).(strings := Abs(w).strings[s := chars])
  {
    PutStringRefines(w, s, Str(Small(chars), hash));
  }

  lemma LargeStringsAreLarge(w: World, s: ImmutableString)
    requires Safe(w) && s in w.strings
    ensures |Abs(w).strings[s]| > MAX_SMALL_SIZE ==>
              !w.strings[s].rep.Small? && w.strings[s].rep.data + |Abs(w).strings[s]| <= TWO_64
  {
    assert StringOk(w.heap, w.strings[s].rep);
    var rep := w.strings[s].rep;
    assert rep.Owned? ==> rep.data + rep.size in w.heap.bytes;
  }

  lemma ShareAndAliasRefines(w: World, s: ImmutableString, src: ImmutableString, str: Str, i: nat, m: nat, v: World)
    requires Safe(w) && src in w.strings && s !in w.strings && str == w.strings[src] && !str.rep.Small?
    requires i + m <= |Abs(w).strings[src]| < TWO_64 && str.rep.data + i < TWO_64
    requires v == PutString(PutString(w, src, AsShared(str)), s, Str(Shared(str.rep.data + i, m), 0))
    ensures Safe(v) && Abs(v) == Abs(w).(strings := Abs(w).strings[s := Abs(w).strings[src][i..i + m]])
  {
    ShareRefines(w, src);
    AliasRefines(PutString(w, src, AsShared(str)), src, s, i, m, 0);
  }

  /** A shared string gets a block of its own, terminated. */
  ghost function CStr(w: World, s: ImmutableString): World
    requires Safe(w) && s in w.strings && Fits(w, |Abs(w).strings[s]| + 1)
  {
    var str := w.strings[s];
    if str.rep.Shared? then
      PutString(Allocate(w, Abs(w).strings[s] + [0]), s, Str(Owned(w.heap.next, str.rep.size), str.hash))
    else
      w
  }

  lemma CStrRefines(w: World, s: ImmutableString)
    requires Safe(w) && s in w.strings && Fits(w, |Abs(w).strings[s]| + 1)
    ensures Safe(CStr(w, s)) && Abs(CStr(w, s)) == Abs(w)
    ensures !CStr(w, s).strings[s].rep.Shared?
  {
    var str := w.strings[s];
    if str.rep.Shared? {
      OwnFreshBlock(w, s, Abs(w).strings[s], str.rep.size, str.hash);
      SameEntry(Abs(w).strings, s);
    }
  }

  ghost function ToHash(w: World, s: ImmutableString): World
    requires Safe(w) && s in w.strings
  {
    var str := w.strings[s];
    if str.hash != 0 then w else PutString(w, s, Str(str.rep, HashOf(Abs(w).strings[s])))
  }

  lemma ToHashRefines(w: World, s: ImmutableString)
    requires Safe(w) && s in w.strings
    ensures Safe(ToHash(w, s)) && Abs(ToHash(w, s)) == Abs(w)
  {
    var str := w.strings[s];
    if str.hash == 0 {
      assert forall t :: t in w.strings && t != s ==> StringsApart(str.rep, w.strings[t].rep);
      PutStringRefines(w, s, Str(str.rep, HashOf(Abs(w).strings[s])));
      SameEntry(Abs(w).strings, s);
    }
  }
}

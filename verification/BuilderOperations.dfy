/**
  The operations of `string_builder`: its buffer grows by reallocation to powers of two and is handed over to a
  string on release.
 */
module BuilderOperations {

  import opened Words
  import opened ByteHeap
  import opened StringLayout
  import opened StringObjects
  import opened StringTheory
  import opened StringOperations

  const NO_BUFFER := Builder(0, 0, 0, 0)

  /** What a block of the new capacity holds after the old one was moved into it; the rest is uninitialised. */
  function Moved(h: Heap, b: Builder, junk: seq<byte>): seq<byte>
    requires b.buffer != 0 ==> Live(h, b.buffer, b.capacity)
  {
    (if b.buffer == 0 then [] else Read(h, b.buffer, b.capacity)) + junk
  }

  predicate CanReallocate(w: World, b: Builder, required: nat, junk: seq<byte>) {
    && b.capacity < BitCeil(required) && |junk| == BitCeil(required) - b.capacity
    && Fits(w, BitCeil(required))
  }

  /** `GC_realloc` to the next power of two: a new block, the old bytes moved, the old block freed. */
  ghost function Reallocate(w: World, b: StringBuilder, required: nat, junk: seq<byte>): World
    requires Safe(w) && b in w.builders && CanReallocate(w, w.builders[b], required, junk)
  {
    var old_ := w.builders[b];
    var u := Regrown(w, b, required, junk);
    if old_.buffer == 0 then u else u.(heap := Free(u.heap, old_.buffer))
  }

  /** Both blocks are still there. */
  ghost function Regrown(w: World, b: StringBuilder, required: nat, junk: seq<byte>): (u: World)
    requires Safe(w) && b in w.builders && CanReallocate(w, w.builders[b], required, junk)
    ensures forall p :: p in w.heap.blocks ==> p in u.heap.blocks
  {
    var old_ := w.builders[b];
    PutBuilder(Allocate(w, Moved(w.heap, old_, junk)), b,
               Builder(w.heap.next, old_.pos, BitCeil(required), old_.moved + old_.capacity))
  }

  lemma ReallocateRefines(w: World, b: StringBuilder, required: nat, junk: seq<byte>)
    requires Safe(w) && b in w.builders && CanReallocate(w, w.builders[b], required, junk)
    requires w.builders[b].pos < BitCeil(required)
    ensures Safe(Reallocate(w, b, required, junk)) && Abs(Reallocate(w, b, required, junk)) == Abs(w)
  {
    var old_ := w.builders[b];
    var u := Regrown(w, b, required, junk);
    RegrownRefines(w, b, required, junk);
    if old_.buffer != 0 {
      OldBufferIsUnclaimed(w, b, Moved(w.heap, old_, junk), u.builders[b]);
      FreeRefines(u, old_.buffer);
    }
  }

  lemma RegrownRefines(w: World, b: StringBuilder, required: nat, junk: seq<byte>)
    requires Safe(w) && b in w.builders && CanReallocate(w, w.builders[b], required, junk)
    requires w.builders[b].pos < BitCeil(required)
    ensures Safe(Regrown(w, b, required, junk)) && Abs(Regrown(w, b, required, junk)) == Abs(w)
  {
    var old_ := w.builders[b];
    MovedBufferIsOk(w, b, required, junk);
    NewBufferRefines(w, b, Moved(w.heap, old_, junk),
                     Builder(w.heap.next, old_.pos, BitCeil(required), old_.moved + old_.capacity),
                     Regrown(w, b, required, junk));
    SameEntry(Abs(w).builders, b);
  }

  /** A builder takes a fresh block for its buffer. */
  lemma NewBufferRefines(w: World, b: StringBuilder, block: seq<byte>, bld: Builder, u: World)
    requires Safe(w) && Fits(w, |block|) && bld.buffer == w.heap.next && BuilderOk(Alloc(w.heap, block), bld)
    requires u == PutBuilder(Allocate(w, block), b, bld)
    ensures Safe(u)
    ensures Abs(u) == Abs(w).(builders := Abs(w).builders[b := BuilderContents(Alloc(w.heap, block), bld)])
  {
    AllocateRefines(w, block);
    FreshBufferIsApart(w, block, b, bld);
    PutBuilderRefines(Allocate(w, block), b, bld);
  }

  /** The grown buffer is a power of two, still bounds the bytes moved so far, and holds the same text. */
  lemma MovedBufferIsOk(w: World, b: StringBuilder, required: nat, junk: seq<byte>)
    requires Safe(w) && b in w.builders && CanReallocate(w, w.builders[b], required, junk)
    requires w.builders[b].pos < BitCeil(required)
    ensures var old_ := w.builders[b];
            var h := Alloc(w.heap, Moved(w.heap, old_, junk));
            var bld := Builder(w.heap.next, old_.pos, BitCeil(required), old_.moved + old_.capacity);
            BuilderOk(h, bld) && BuilderContents(h, bld) == BuilderContents(w.heap, old_)
  {
    var old_ := w.builders[b];
    assert BuilderOk(w.heap, old_);
    var block := Moved(w.heap, old_, junk);
    AllocReads(w.heap, block);
    if old_.buffer != 0 {
      PowersOfTwoDouble(old_.capacity, BitCeil(required));
    }
    ReadSlice(Alloc(w.heap, block), w.heap.next, |block|, 0, old_.pos);
    assert BuilderContents(w.heap, old_) == block[0..old_.pos];
  }

  lemma FreshBufferIsApart(w: World, block: seq<byte>, b: StringBuilder, bld: Builder)
    requires Safe(w) && Fits(w, |block|) && bld.buffer == w.heap.next
    ensures forall s :: s in w.strings ==> BuilderApart(bld, w.strings[s].rep)
    ensures forall c :: c in w.builders && c != b ==> BuildersApart(bld, w.builders[c])
  {
    forall s | s in w.strings ensures BuilderApart(bld, w.strings[s].rep) {
      AllocKeepsString(w.heap, block, w.strings[s].rep);
    }
    forall c | c in w.builders && c != b ensures BuildersApart(bld, w.builders[c]) {
      AllocKeepsBuilder(w.heap, block, w.builders[c]);
    }
  }

  lemma OldBufferIsUnclaimed(w: World, b: StringBuilder, block: seq<byte>, bld: Builder)
    requires Safe(w) && b in w.builders && w.builders[b].buffer != 0 && bld.buffer == w.heap.next
    ensures var u := PutBuilder(Allocate(w, block), b, bld);
            var p, n := w.builders[b].buffer, w.builders[b].capacity;
            && p in u.heap.blocks && u.heap.blocks[p] == n > 0
            && (forall s :: s in u.strings ==> Apart(p, p + n, Lo(u.strings[s].rep), Hi(u.strings[s].rep)))
            && (forall c :: c in u.builders && u.builders[c].buffer != 0 ==>
                  Apart(p, p + n, u.builders[c].buffer, u.builders[c].buffer + u.builders[c].capacity))
  {
    var old_ := w.builders[b];
    AllocKeepsBuilder(w.heap, block, old_);
    forall s | s in w.strings ensures Apart(old_.buffer, old_.buffer + old_.capacity, Lo(w.strings[s].rep), Hi(w.strings[s].rep)) {
      assert BuilderApart(old_, w.strings[s].rep);
    }
    forall c | c in w.builders && c != b && w.builders[c].buffer != 0
      ensures Apart(old_.buffer, old_.buffer + old_.capacity,
                    w.builders[c].buffer, w.builders[c].buffer + w.builders[c].capacity)
    {
      assert BuildersApart(old_, w.builders[c]);
    }
  }

  /** A new builder allocates at once; a requested capacity of 0 gives 1. */
  ghost function NewBuilder(w: World, b: StringBuilder, capacity: nat, junk: seq<byte>): World
    requires Safe(w) && |junk| == BitCeil(capacity) && Fits(w, BitCeil(capacity))
  {
    PutBuilder(Allocate(w, junk), b, Builder(w.heap.next, 0, BitCeil(capacity), 0))
  }

  lemma NewBuilderRefines(w: World, b: StringBuilder, capacity: nat, junk: seq<byte>)
    requires Safe(w) && |junk| == BitCeil(capacity) && Fits(w, BitCeil(capacity))
    ensures Safe(NewBuilder(w, b, capacity, junk))
    ensures Abs(NewBuilder(w, b, capacity, junk)) == Abs(w).(builders := Abs(w).builders[b := []])
  {
    AllocReads(w.heap, junk);
    NewBufferRefines(w, b, junk, Builder(w.heap.next, 0, BitCeil(capacity), 0), NewBuilder(w, b, capacity, junk));
  }

  /** `maybe_realloc`: one byte more than the text is always kept free. */
  ghost function Grow(w: World, b: StringBuilder, additional: nat, junk: seq<byte>): World
    requires CanGrow(w, b, additional, junk)
  {
    var required := w.builders[b].pos + additional + 1;
    if w.builders[b].capacity < required then Reallocate(w, b, required, junk) else w
  }

  ghost predicate CanGrow(w: World, b: StringBuilder, additional: nat, junk: seq<byte>) {
    && Safe(w) && b in w.builders
    && var required := w.builders[b].pos + additional + 1;
       w.builders[b].capacity < required ==> CanReallocate(w, w.builders[b], required, junk)
  }

  lemma GrowRefines(w: World, b: StringBuilder, additional: nat, junk: seq<byte>)
    requires CanGrow(w, b, additional, junk)
    ensures Safe(Grow(w, b, additional, junk)) && Abs(Grow(w, b, additional, junk)) == Abs(w)
    ensures b in Grow(w, b, additional, junk).builders
    ensures var bld := Grow(w, b, additional, junk).builders[b];
            bld.buffer != 0 && bld.pos == w.builders[b].pos && bld.pos + additional < bld.capacity
  {
    assert BuilderOk(w.heap, w.builders[b]);
    var required := w.builders[b].pos + additional + 1;
    if w.builders[b].capacity < required {
      ReallocateRefinesTo(w, b, required, junk, Grow(w, b, additional, junk));
    }
  }

  lemma ReallocateRefinesTo(w: World, b: StringBuilder, required: nat, junk: seq<byte>, v: World)
    requires Safe(w) && b in w.builders && CanReallocate(w, w.builders[b], required, junk)
    requires w.builders[b].pos < BitCeil(required) && v == Reallocate(w, b, required, junk)
    ensures Safe(v) && Abs(v) == Abs(w) && b in v.builders
    ensures v.builders[b].buffer != 0 && v.builders[b].pos == w.builders[b].pos && required <= v.builders[b].capacity
  {
    ReallocateRefines(w, b, required, junk);
    ReallocatedBuilder(w, b, required, junk);
  }

  lemma ReallocatedBuilder(w: World, b: StringBuilder, required: nat, junk: seq<byte>)
    requires Safe(w) && b in w.builders && CanReallocate(w, w.builders[b], required, junk)
    ensures b in Reallocate(w, b, required, junk).builders
    ensures var bld := Reallocate(w, b, required, junk).builders[b];
            bld.buffer == w.heap.next && bld.pos == w.builders[b].pos && bld.capacity == BitCeil(required)
  {}

  /** `write`: the bytes go behind the text. */
  ghost function WriteText(w: World, b: StringBuilder, data: seq<byte>): World
    requires b in w.builders && w.builders[b].pos + |data| < w.builders[b].capacity
  {
    var bld := w.builders[b];
    PutBuilder(w.(heap := Write(w.heap, bld.buffer + bld.pos, data)), b, bld.(pos := bld.pos + |data|))
  }

  lemma WriteTextRefines(w: World, b: StringBuilder, data: seq<byte>)
    requires Safe(w) && b in w.builders && w.builders[b].buffer != 0
    requires w.builders[b].pos + |data| < w.builders[b].capacity
    ensures Safe(WriteText(w, b, data))
    ensures Abs(WriteText(w, b, data)) == Abs(w).(builders := Abs(w).builders[b := Abs(w).builders[b] + data])
  {
    var p := w.builders[b].buffer + w.builders[b].pos;
    FreePartIsLive(w.heap, w.builders[b], |data|);
    WriteIsLocal(w.heap, p, data);
    LengtheningRefines(w, b, Write(w.heap, p, data), data, WriteText(w, b, data));
  }

  lemma FreePartIsLive(h: Heap, bld: Builder, n: nat)
    requires BuilderOk(h, bld) && bld.buffer != 0 && bld.pos + n < bld.capacity
    ensures Live(h, bld.buffer + bld.pos, n)
  {}

  /** The free part of a builder's buffer was changed to hold `data`; the builder takes that as text. */
  lemma LengtheningRefines(w: World, b: StringBuilder, h: Heap, data: seq<byte>, v: World)
    requires Safe(w) && b in w.builders && w.builders[b].buffer != 0
    requires w.builders[b].pos + |data| < w.builders[b].capacity
    requires var p := w.builders[b].buffer + w.builders[b].pos;
             SameOutside(w.heap, h, p, |data|) && Live(h, p, |data|) && Read(h, p, |data|) == data
    requires v == PutBuilder(w.(heap := h), b, w.builders[b].(pos := w.builders[b].pos + |data|))
    ensures Safe(v) && Abs(v) == Abs(w).(builders := Abs(w).builders[b := Abs(w).builders[b] + data])
  {
    var longer := w.builders[b].(pos := w.builders[b].pos + |data|);
    ChangeIsInvisible(w, b, h, |data|);
    HeapChangeRefines(w, h);
    LongerText(w.heap, w.builders[b], h, data);
    SameBufferIsApart(w, b, longer);
    PutBuilderRefines(w.(heap := h), b, longer);
  }

  lemma SameBufferIsApart(w: World, b: StringBuilder, bld: Builder)
    requires Safe(w) && b in w.builders
    requires bld.buffer == w.builders[b].buffer && bld.capacity == w.builders[b].capacity
    ensures forall s :: s in w.strings ==> BuilderApart(bld, w.strings[s].rep)
    ensures forall c :: c in w.builders && c != b ==> BuildersApart(bld, w.builders[c])
  {
    forall s | s in w.strings ensures BuilderApart(bld, w.strings[s].rep) {
      assert BuilderApart(w.builders[b], w.strings[s].rep);
    }
    forall c | c in w.builders && c != b ensures BuildersApart(bld, w.builders[c]) {
      assert BuildersApart(w.builders[b], w.builders[c]);
    }
  }

  lemma LongerText(h: Heap, bld: Builder, g: Heap, data: seq<byte>)
    requires BuilderOk(h, bld) && bld.buffer != 0 && bld.pos + |data| < bld.capacity
    requires SameOutside(h, g, bld.buffer + bld.pos, |data|)
    requires Live(g, bld.buffer + bld.pos, |data|) && Read(g, bld.buffer + bld.pos, |data|) == data
    ensures BuilderOk(g, bld) && BuilderContents(g, bld) == BuilderContents(h, bld)
    ensures var longer := bld.(pos := bld.pos + |data|);
            BuilderOk(g, longer) && BuilderContents(g, longer) == BuilderContents(h, bld) + data
  {
    SameOutsideKeeps(h, g, bld.buffer + bld.pos, |data|, bld.buffer, bld.pos);
    ReadConcat(g, bld.buffer, bld.pos, |data|);
  }

  lemma ChangeKeepsString(h: Heap, g: Heap, p: nat, n: nat, rep: Rep)
    requires StringOk(h, rep) && SameOutside(h, g, p, n) && Apart(p, p + n, Lo(rep), Hi(rep))
    ensures StringReadsTheSame(h, g, rep)
  {
    if !rep.Small? {
      SameOutsideKeeps(h, g, p, n, Lo(rep), Hi(rep) - Lo(rep));
    }
  }

  lemma ChangeKeepsBuilder(h: Heap, g: Heap, p: nat, n: nat, bld: Builder)
    requires BuilderOk(h, bld) && SameOutside(h, g, p, n)
    requires bld.buffer != 0 ==> Apart(p, p + n, bld.buffer, bld.buffer + bld.pos)
    ensures BuilderReadsTheSame(h, g, bld)
  {
    if bld.buffer != 0 {
      SameOutsideKeeps(h, g, p, n, bld.buffer, bld.pos);
    }
  }

  lemma ChangeIsInvisible(w: World, b: StringBuilder, g: Heap, n: nat)
    requires Safe(w) && b in w.builders && w.builders[b].buffer != 0
    requires w.builders[b].pos + n < w.builders[b].capacity
    requires SameOutside(w.heap, g, w.builders[b].buffer + w.builders[b].pos, n)
    ensures ReadsTheSame(w, g)
  {
    var bld := w.builders[b];
    var p := bld.buffer + bld.pos;
    forall s | s in w.strings ensures StringReadsTheSame(w.heap, g, w.strings[s].rep) {
      assert BuilderApart(bld, w.strings[s].rep);
      ChangeKeepsString(w.heap, g, p, n, w.strings[s].rep);
    }
    forall c | c in w.builders ensures BuilderReadsTheSame(w.heap, g, w.builders[c]) {
      if c != b {
        assert BuildersApart(bld, w.builders[c]);
      }
      ChangeKeepsBuilder(w.heap, g, p, n, w.builders[c]);
    }
  }

  ghost function Append(w: World, b: StringBuilder, data: seq<byte>, junk: seq<byte>): World
    requires CanGrow(w, b, |data|, junk)
  {
    GrowRefines(w, b, |data|, junk);
    WriteText(Grow(w, b, |data|, junk), b, data)
  }

  lemma AppendRefines(w: World, b: StringBuilder, data: seq<byte>, junk: seq<byte>)
    requires CanGrow(w, b, |data|, junk)
    ensures Safe(Append(w, b, data, junk))
    ensures Abs(Append(w, b, data, junk)) == Abs(w).(builders := Abs(w).builders[b := Abs(w).builders[b] + data])
  {
    GrowRefines(w, b, |data|, junk);
    WriteTextRefines(Grow(w, b, |data|, junk), b, data);
  }

  ghost function Clear(w: World, b: StringBuilder): World
    requires b in w.builders
  {
    PutBuilder(w, b, w.builders[b].(pos := 0))
  }

  lemma ClearRefines(w: World, b: StringBuilder)
    requires Safe(w) && b in w.builders
    ensures Safe(Clear(w, b)) && Abs(Clear(w, b)) == Abs(w).(builders := Abs(w).builders[b := []])
  {
    var cleared := w.builders[b].(pos := 0);
    SameBufferIsApart(w, b, cleared);
    assert BuilderOk(w.heap, w.builders[b]);
    PutBuilderRefines(w, b, cleared);
  }

  ghost predicate CanReserve(w: World, b: StringBuilder, capacity: nat, junk: seq<byte>) {
    && Safe(w) && b in w.builders
    && (w.builders[b].capacity < capacity ==> CanReallocate(w, w.builders[b], capacity, junk))
  }

  ghost function Reserve(w: World, b: StringBuilder, capacity: nat, junk: seq<byte>): World
    requires CanReserve(w, b, capacity, junk)
  {
    if w.builders[b].capacity < capacity then Reallocate(w, b, capacity, junk) else w
  }

  lemma ReserveRefines(w: World, b: StringBuilder, capacity: nat, junk: seq<byte>)
    requires CanReserve(w, b, capacity, junk)
    ensures Safe(Reserve(w, b, capacity, junk)) && Abs(Reserve(w, b, capacity, junk)) == Abs(w)
  {
    assert BuilderOk(w.heap, w.builders[b]);
    if w.builders[b].capacity < capacity {
      ReallocateRefines(w, b, capacity, junk);
    }
  }

  /** A short text is copied out and its buffer dropped; a longer one goes to the string, buffer and all. */
  ghost function Release(w: World, b: StringBuilder, s: ImmutableString): World
    requires Safe(w) && b in w.builders
  {
    var bld := w.builders[b];
    var rep := if bld.pos <= MAX_SMALL_SIZE then Small(BuilderContents(w.heap, bld)) else Shared(bld.buffer, bld.pos);
    PutString(PutBuilder(w, b, NO_BUFFER), s, Str(rep, 0))
  }

  lemma ReleaseRefines(w: World, b: StringBuilder, s: ImmutableString)
    requires Safe(w) && b in w.builders && s !in w.strings
    ensures Safe(Release(w, b, s))
    ensures Abs(Release(w, b, s))
            == Values(Abs(w).strings[s := Abs(w).builders[b]], Abs(w).builders[b := []])
  {
    var bld := w.builders[b];
    assert BuilderOk(w.heap, bld);
    PutBuilderRefines(w, b, NO_BUFFER);
    var v := PutBuilder(w, b, NO_BUFFER);
    if bld.pos <= MAX_SMALL_SIZE {
      PutSmallRefines(v, s, BuilderContents(w.heap, bld), 0);
    } else {
      var rep := Shared(bld.buffer, bld.pos);
      AllocKeepsBuilder(w.heap, [], bld);
      forall t | t in v.strings && t != s ensures StringsApart(rep, v.strings[t].rep) {
        assert BuilderApart(bld, w.strings[t].rep);
      }
      forall c | c in v.builders ensures BuilderApart(v.builders[c], rep) {
        assert c != b ==> BuildersApart(bld, w.builders[c]);
      }
      PutStringRefines(v, s, Str(rep, 0));
    }
  }

  /** The buffer is freed with the builder, unless it was released. */
  ghost function DropBuilder(w: World, b: StringBuilder): World
    requires Safe(w) && b in w.builders
  {
    var bld := w.builders[b];
    World(if bld.buffer == 0 then w.heap else Free(w.heap, bld.buffer), w.strings, w.builders - {b})
  }

  lemma DropBuilderRefines(w: World, b: StringBuilder)
    requires Safe(w) && b in w.builders
    ensures Safe(DropBuilder(w, b)) && Abs(DropBuilder(w, b)) == Abs(w).(builders := Abs(w).builders - {b})
  {
    var bld := w.builders[b];
    var v := World(w.heap, w.strings, w.builders - {b});
    assert Abs(v).builders == Abs(w).builders - {b};
    if bld.buffer != 0 {
      assert forall s :: s in v.strings ==> BuilderApart(bld, w.strings[s].rep);
      assert forall c :: c in v.builders ==> BuildersApart(bld, w.builders[c]);
      FreeRefines(v, bld.buffer);
    }
  }
}

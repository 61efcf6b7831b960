/**
  What each operation does below the values: which blocks it frees and makes, what representation strings have
  afterwards, and what becomes of builders.
 */
module StringEffects {

  import opened Words
  import opened ByteHeap
  import opened StringLayout
  import opened StringObjects
  import opened StringTheory
  import opened StringOperations
  import opened BuilderOperations
  import opened StringRuns

  // ---------------------------------------------------------------------------------------------
  // Blocks
  // ---------------------------------------------------------------------------------------------

  /** Only a block that its string owns, or its builder holds, is freed with it or instead of it. */
  ghost function Freed(w: World, op: Op): set<nat>
    requires Safe(w) && Enabled(w, op)
  {
    match op
    case OpAssign(s, src) => if s == src then {} else BlockOf(w.strings[s].rep)
    case OpAssignBytes(s, _) => BlockOf(w.strings[s].rep)
    case OpDestroy(s) => BlockOf(w.strings[s].rep)
    case OpAppend(b, data, _) => if Outgrows(w.builders[b], |data|) then BufferOf(w.builders[b]) else {}
    case OpReserve(b, capacity, _) => if w.builders[b].capacity < capacity then BufferOf(w.builders[b]) else {}
    case OpDropBuilder(b) => BufferOf(w.builders[b])
    case _ => {}
  }

  function BlockOf(rep: Rep): set<nat> {
    match rep
    case Owned(p, _) => {p}
    case _ => {}
  }

  function BufferOf(bld: Builder): set<nat> {
    if bld.buffer == 0 then {} else {bld.buffer}
  }

  /** The text and one more byte do not fit. */
  predicate Outgrows(bld: Builder, additional: nat) {
    bld.capacity <= bld.pos + additional
  }

  /** Whether a block is allocated. */
  ghost predicate Makes(w: World, op: Op)
    requires Safe(w) && Enabled(w, op)
  {
    match op
    case OpConstruct(_, data) => |data| > 23
    case OpFill(_, size, _) => size > 23
    case OpAssignBytes(_, data) => |data| > 23
    case OpSubstr(_, src, pos, count) =>
      var length := |Abs(w).strings[src]|;
      var n := if count <= length - pos then count else length - pos;
      n > 23 && length - n > 512
    case OpCStr(s) => w.strings[s].rep.Shared?
    case OpNewBuilder(_, _, _) => true
    case OpAppend(b, data, _) => Outgrows(w.builders[b], |data|)
    case OpReserve(b, capacity, _) => w.builders[b].capacity < capacity
    case _ => false
  }

  lemma BlocksAfter(w: World, op: Op)
    requires Safe(w) && Enabled(w, op)
    ensures Apply(w, op).heap.blocks.Keys
            == w.heap.blocks.Keys - Freed(w, op) + if Makes(w, op) then {w.heap.next} else {}
  {
    match op
    case OpSubstr(_, src, pos, count) =>
      SubstrClampsIffNoWrap(|Abs(w).strings[src]|, pos, count);
    case OpAppend(b, data, junk) => AppendBlocks(w, b, data, junk);
    case OpReserve(b, capacity, junk) => ReserveBlocks(w, b, capacity, junk);
    case _ =>
  }

  lemma ReallocateBlocks(w: World, b: StringBuilder, required: nat, junk: seq<byte>)
    requires Safe(w) && b in w.builders && CanReallocate(w, w.builders[b], required, junk)
    ensures Reallocate(w, b, required, junk).heap.blocks.Keys
            == w.heap.blocks.Keys - BufferOf(w.builders[b]) + {w.heap.next}
  {
    var bld := w.builders[b];
    if bld.buffer != 0 {
      AllocKeepsBuilder(w.heap, [], bld);
    }
  }

  lemma AppendBlocks(w: World, b: StringBuilder, data: seq<byte>, junk: seq<byte>)
    requires CanGrow(w, b, |data|, junk)
    ensures Append(w, b, data, junk).heap.blocks.Keys
            == if Outgrows(w.builders[b], |data|) then w.heap.blocks.Keys - BufferOf(w.builders[b]) + {w.heap.next}
               else w.heap.blocks.Keys
  {
    var u := Grow(w, b, |data|, junk);
    GrowRefines(w, b, |data|, junk);
    GrowBlocks(w, b, |data|, junk);
    WriteBlocks(u.heap, u.builders[b].buffer + u.builders[b].pos, data);
    assert Append(w, b, data, junk) == WriteText(u, b, data);
  }

  lemma GrowBlocks(w: World, b: StringBuilder, additional: nat, junk: seq<byte>)
    requires CanGrow(w, b, additional, junk)
    ensures Grow(w, b, additional, junk).heap.blocks.Keys
            == if Outgrows(w.builders[b], additional) then w.heap.blocks.Keys - BufferOf(w.builders[b]) + {w.heap.next}
               else w.heap.blocks.Keys
  {
    if Outgrows(w.builders[b], additional) {
      ReallocateBlocks(w, b, w.builders[b].pos + additional + 1, junk);
    }
  }

  lemma ReserveBlocks(w: World, b: StringBuilder, capacity: nat, junk: seq<byte>)
    requires CanReserve(w, b, capacity, junk)
    ensures Reserve(w, b, capacity, junk).heap.blocks.Keys
            == if w.builders[b].capacity < capacity then w.heap.blocks.Keys - BufferOf(w.builders[b]) + {w.heap.next}
               else w.heap.blocks.Keys
  {
    if w.builders[b].capacity < capacity {
      ReallocateBlocks(w, b, capacity, junk);
    }
  }

  lemma {:induction false} WriteBlocks(h: Heap, p: nat, data: seq<byte>)
    ensures Write(h, p, data).blocks == h.blocks
    decreases |data|
  {
    if data != [] {
      WriteBlocks(h.(bytes := h.bytes[p := data[0]]), p + 1, data[1..]);
    }
  }

  // ---------------------------------------------------------------------------------------------
  // Representations
  // ---------------------------------------------------------------------------------------------

  /** What a string of these characters is when it is made. */
  predicate IsNew(rep: Rep, n: nat) {
    if n <= 23 then rep.Small? else rep.Owned?
  }

  /** A large representation without ownership. */
  predicate IsShareOf(rep: Rep, was: Rep) {
    if was.Small? then rep == was else rep == Shared(was.data, was.size)
  }

  ghost predicate Kept(w: World, t: ImmutableString, rep: Rep) {
    t in w.strings && rep == w.strings[t].rep
  }

  /** What string `t` is after the operation. Only copies, their sources, and what was shared are affected beside the target. */
  ghost predicate RepAfter(w: World, op: Op, t: ImmutableString, rep: Rep)
    requires Safe(w) && Enabled(w, op)
  {
    match op
    case OpConstruct(s, data) => if t == s then IsNew(rep, |data|) else Kept(w, t, rep)
    case OpFill(s, size, _) => if t == s then IsNew(rep, size) else Kept(w, t, rep)
    case OpCopy(s, src) => if t == s || t == src then IsShareOf(rep, w.strings[src].rep) else Kept(w, t, rep)
    case OpMove(s, src) =>
      if t == s then rep == w.strings[src].rep else if t == src then rep == Small([]) else Kept(w, t, rep)
    case OpAssign(s, src) =>
      if s != src && (t == s || t == src) then IsShareOf(rep, w.strings[src].rep) else Kept(w, t, rep)
    case OpAssignBytes(s, data) => if t == s then IsNew(rep, |data|) else Kept(w, t, rep)
    case OpSubstr(s, src, pos, count) => SliceAfter(w, s, src, pos, count, t, rep)
    case OpCStr(s) => if t == s && w.strings[s].rep.Shared? then rep.Owned? else Kept(w, t, rep)
    case OpRelease(b, s) =>
      if t != s then Kept(w, t, rep)
      else if w.builders[b].pos <= 23 then rep.Small?
      else rep == Shared(w.builders[b].buffer, w.builders[b].pos)
    case _ => Kept(w, t, rep)
  }

  ghost predicate SliceAfter(w: World, s: ImmutableString, src: ImmutableString, pos: u64, count: u64,
                             t: ImmutableString, rep: Rep)
    requires Safe(w) && src in w.strings && pos <= |Abs(w).strings[src]|
  {
    var length, was := |Abs(w).strings[src]|, w.strings[src].rep;
    var n := if count <= length - pos then count else length - pos;
    if n <= 23 then if t == s then rep.Small? else Kept(w, t, rep)
    else if length - n > 512 then if t == s then rep.Owned? else Kept(w, t, rep)
    else !was.Small?
         && if t == s then rep.Shared? && rep.data == was.data + pos && rep.size == n
            else if t == src then IsShareOf(rep, was)
            else Kept(w, t, rep)
  }

  lemma RepsAfter(w: World, op: Op, t: ImmutableString)
    requires Safe(w) && Enabled(w, op) && t in Apply(w, op).strings
    ensures RepAfter(w, op, t, Apply(w, op).strings[t].rep)
  {
    match op
    case OpSubstr(s, src, pos, count) => SliceReps(w, s, src, pos, count, t);
    case _ =>
  }

  lemma SliceReps(w: World, s: ImmutableString, src: ImmutableString, pos: u64, count: u64, t: ImmutableString)
    requires Safe(w) && src in w.strings && s !in w.strings && CanSubstr(|Abs(w).strings[src]|, pos, count)
    requires Fits(w, |Abs(w).strings[src]| + 1) && t in Substr(w, s, src, pos, count).strings
    ensures SliceAfter(w, s, src, pos, count, t, Substr(w, s, src, pos, count).strings[t].rep)
  {
    SubstrClampsIffNoWrap(|Abs(w).strings[src]|, pos, count);
    LargeStringsAreLarge(w, src);
  }

  // ---------------------------------------------------------------------------------------------
  // Builders
  // ---------------------------------------------------------------------------------------------

  /** The builder as it was, moved to a buffer of the least sufficient power of two if `required` bytes do not fit. */
  predicate GrownTo(bld: Builder, was: Builder, required: nat) {
    if required <= was.capacity then bld == was
    else bld.pos == was.pos && bld.capacity == BitCeil(required) && bld.moved == was.moved + was.capacity
  }

  /** Of operations that do not grow one. */
  ghost predicate BuilderAfter(w: World, op: Op, c: StringBuilder, bld: Builder)
    requires Safe(w) && Enabled(w, op)
  {
    match op
    case OpNewBuilder(b, capacity, _) =>
      if c == b then bld.pos == 0 && bld.capacity == BitCeil(capacity) && bld.moved == 0 else Stays(w, c, bld)
    case OpClear(b) => if c == b then bld == w.builders[b].(pos := 0) else Stays(w, c, bld)
    case OpRelease(b, _) => if c == b then bld == Builder(0, 0, 0, 0) else Stays(w, c, bld)
    case _ => Stays(w, c, bld)
  }

  ghost predicate Stays(w: World, c: StringBuilder, bld: Builder) {
    c in w.builders && bld == w.builders[c]
  }

  lemma BuildersAfter(w: World, op: Op, c: StringBuilder)
    requires Safe(w) && Enabled(w, op) && !op.OpAppend? && !op.OpReserve? && c in Apply(w, op).builders
    ensures BuilderAfter(w, op, c, Apply(w, op).builders[c])
  {}

  lemma ReallocatedBuilders(w: World, b: StringBuilder, required: nat, junk: seq<byte>, c: StringBuilder)
    requires Safe(w) && b in w.builders && CanReallocate(w, w.builders[b], required, junk)
    requires c in w.builders && w.builders[b].capacity < required
    ensures c in Reallocate(w, b, required, junk).builders
    ensures var bld := Reallocate(w, b, required, junk).builders[c];
            if c == b then GrownTo(bld, w.builders[b], required) else bld == w.builders[c]
  {}

  lemma AppendedBuilder(w: World, b: StringBuilder, data: seq<byte>, junk: seq<byte>, c: StringBuilder)
    requires CanGrow(w, b, |data|, junk) && c in w.builders
    ensures c in Append(w, b, data, junk).builders
    ensures var bld := Append(w, b, data, junk).builders[c];
            if c == b then
              bld.pos == w.builders[b].pos + |data|
              && GrownTo(bld.(pos := w.builders[b].pos), w.builders[b], w.builders[b].pos + |data| + 1)
            else
              bld == w.builders[c]
  {
    GrowRefines(w, b, |data|, junk);
    var required := w.builders[b].pos + |data| + 1;
    if w.builders[b].capacity < required {
      ReallocatedBuilders(w, b, required, junk, b);
      ReallocatedBuilders(w, b, required, junk, c);
    }
  }

  lemma ReservedBuilder(w: World, b: StringBuilder, capacity: nat, junk: seq<byte>, c: StringBuilder)
    requires CanReserve(w, b, capacity, junk) && c in w.builders
    ensures c in Reserve(w, b, capacity, junk).builders
    ensures var bld := Reserve(w, b, capacity, junk).builders[c];
            if c == b then GrownTo(bld, w.builders[b], capacity) else bld == w.builders[c]
  {
    if w.builders[b].capacity < capacity {
      ReallocatedBuilders(w, b, capacity, junk, c);
    }
  }
}

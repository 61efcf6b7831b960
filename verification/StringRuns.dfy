/**
  Whole runs over strings and builders: memory safety, refinement of plain values, and what cached hashes say.
 */
module StringRuns {

  import opened Wrappers
  import opened Words
  import Hash
  import opened ByteHeap
  import opened StringLayout
  import opened StringObjects
  import opened StringTheory
  import opened StringOperations
  import opened BuilderOperations

  datatype Op =
    | OpConstruct(s: ImmutableString, data: seq<byte>)
    | OpFill(s: ImmutableString, size: u64, c: byte)
    | OpCopy(s: ImmutableString, src: ImmutableString)
    | OpMove(s: ImmutableString, src: ImmutableString)
    | OpAssign(s: ImmutableString, src: ImmutableString)
    | OpAssignBytes(s: ImmutableString, data: seq<byte>)
    | OpSubstr(s: ImmutableString, src: ImmutableString, pos: u64, count: u64)
    | OpCStr(s: ImmutableString)
    | OpToHash(s: ImmutableString)
    | OpDestroy(s: ImmutableString)
    | OpNewBuilder(b: StringBuilder, capacity: nat, junk: seq<byte>)
    | OpAppend(b: StringBuilder, data: seq<byte>, junk: seq<byte>)
    | OpClear(b: StringBuilder)
    | OpReserve(b: StringBuilder, capacity: nat, junk: seq<byte>)
    | OpRelease(b: StringBuilder, s: ImmutableString)
    | OpDropBuilder(b: StringBuilder)

  /** The objects named exist or are new as they must be, and the heap has room for what is allocated. */
  ghost predicate Enabled(w: World, op: Op)
    requires Safe(w)
  {
    match op
    case OpConstruct(s, data) => s !in w.strings && (|data| > MAX_SMALL_SIZE ==> Fits(w, |data| + 1))
    case OpFill(s, size, _) => s !in w.strings && (size > MAX_SMALL_SIZE ==> Fits(w, FilledSize(size) + 1))
    case OpCopy(s, src) => src in w.strings && s !in w.strings
    case OpMove(s, src) => src in w.strings && s !in w.strings
    case OpAssign(s, src) => s in w.strings && src in w.strings
    case OpAssignBytes(s, data) => s in w.strings && (|data| > MAX_SMALL_SIZE ==> Fits(w, |data| + 1))
    case OpSubstr(s, src, pos, count) =>
      src in w.strings && s !in w.strings && CanSubstr(|Abs(w).strings[src]|, pos, count)
      && Fits(w, |Abs(w).strings[src]| + 1)
    case OpCStr(s) => s in w.strings && Fits(w, |Abs(w).strings[s]| + 1)
    case OpToHash(s) => s in w.strings
    case OpDestroy(s) => s in w.strings
    case OpNewBuilder(b, capacity, junk) =>
      b !in w.builders && |junk| == BitCeil(capacity) && Fits(w, BitCeil(capacity))
    case OpAppend(b, data, junk) => CanGrow(w, b, |data|, junk)
    case OpClear(b) => b in w.builders
    case OpReserve(b, capacity, junk) => CanReserve(w, b, capacity, junk)
    case OpRelease(b, s) => b in w.builders && s !in w.strings
    case OpDropBuilder(b) => b in w.builders
  }

  ghost function Apply(w: World, op: Op): World
    requires Safe(w) && Enabled(w, op)
  {
    match op
    case OpConstruct(s, data) => InitBytes(w, s, data, 0)
    case OpFill(s, size, c) => InitFill(w, s, size, c)
    case OpCopy(s, src) => Copy(w, s, src)
    case OpMove(s, src) => Move(w, s, src)
    case OpAssign(s, src) => Assign(w, s, src)
    case OpAssignBytes(s, data) =>
      AssignBytes(w, s, data)
    case OpSubstr(s, src, pos, count) => Substr(w, s, src, pos, count)
    case OpCStr(s) => CStr(w, s)
    case OpToHash(s) => ToHash(w, s)
    case OpDestroy(s) => DropString(w, s)
    case OpNewBuilder(b, capacity, junk) => NewBuilder(w, b, capacity, junk)
    case OpAppend(b, data, junk) => Append(w, b, data, junk)
    case OpClear(b) => Clear(w, b)
    case OpReserve(b, capacity, junk) => Reserve(w, b, capacity, junk)
    case OpRelease(b, s) => Release(w, b, s)
    case OpDropBuilder(b) => DropBuilder(w, b)
  }

  /** The world after the operation, if it can be taken. */
  ghost function Outcome(w: World, op: Op): Option<World> {
    if Safe(w) && Enabled(w, op) then Some(Apply(w, op)) else None
  }

  /** What the operation does to plain values, where nothing is shared and nothing is freed. */
  ghost function Expected(v: Values, op: Op): Values
    requires Named(v, op)
  {
    match op
    case OpConstruct(s, data) => v.(strings := v.strings[s := data])
    case OpFill(s, size, c) => v.(strings := v.strings[s := Repeat(c, FilledSize(size))])
    case OpCopy(s, src) => v.(strings := v.strings[s := v.strings[src]])
    case OpMove(s, src) => v.(strings := v.strings[src := []][s := v.strings[src]])
    case OpAssign(s, src) => v.(strings := v.strings[s := v.strings[src]])
    case OpAssignBytes(s, data) => v.(strings := v.strings[s := data])
    case OpSubstr(s, src, pos, count) =>
      v.(strings := v.strings[s := Clamped(v.strings[src], pos, count)])
    case OpCStr(_) => v
    case OpToHash(_) => v
    case OpDestroy(s) => v.(strings := v.strings - {s})
    case OpNewBuilder(b, _, _) => v.(builders := v.builders[b := []])
    case OpAppend(b, data, _) => v.(builders := v.builders[b := v.builders[b] + data])
    case OpClear(b) => v.(builders := v.builders[b := []])
    case OpReserve(_, _, _) => v
    case OpRelease(b, s) => Values(v.strings[s := v.builders[b]], v.builders[b := []])
    case OpDropBuilder(b) => v.(builders := v.builders - {b})
  }

  /** The objects an operation reads are there. */
  ghost predicate Named(v: Values, op: Op) {
    match op
    case OpCopy(_, src) => src in v.strings
    case OpMove(_, src) => src in v.strings
    case OpAssign(_, src) => src in v.strings
    case OpSubstr(_, src, pos, _) => src in v.strings && pos <= |v.strings[src]|
    case OpAppend(b, _, _) => b in v.builders
    case OpRelease(b, _) => b in v.builders
    case _ => true
  }

  /** At most `count` bytes from `pos` on. */
  function Clamped(s: seq<byte>, pos: nat, count: nat): seq<byte>
    requires pos <= |s|
  {
    if count <= |s| - pos then s[pos..pos + count] else s[pos..]
  }

  // ---------------------------------------------------------------------------------------------
  // Safety and refinement
  // ---------------------------------------------------------------------------------------------

  /** Every operation keeps memory safe and computes the expected values. */
  lemma ApplyRefines(w: World, op: Op)
    requires Safe(w) && Enabled(w, op)
    ensures Safe(Apply(w, op))
    ensures Named(Abs(w), op) && Abs(Apply(w, op)) == Expected(Abs(w), op)
  {
    match op
    case OpConstruct(s, data) => InitBytesRefines(w, s, data, 0);
    case OpFill(s, size, c) => InitFillRefines(w, s, size, c);
    case OpCopy(s, src) => CopyRefines(w, s, src);
    case OpMove(s, src) => MoveRefines(w, s, src);
    case OpAssign(s, src) => AssignRefines(w, s, src);
    case OpAssignBytes(s, data) => AssignBytesRefines(w, s, data);
    case OpSubstr(s, src, pos, count) => SubstrYieldsClamped(w, s, src, pos, count);
    case OpCStr(s) => CStrRefines(w, s);
    case OpToHash(s) => ToHashRefines(w, s);
    case OpDestroy(s) => DropStringRefines(w, s);
    case OpNewBuilder(b, capacity, junk) => NewBuilderRefines(w, b, capacity, junk);
    case OpAppend(b, data, junk) => AppendRefines(w, b, data, junk);
    case OpClear(b) => ClearRefines(w, b);
    case OpReserve(b, capacity, junk) => ReserveRefines(w, b, capacity, junk);
    case OpRelease(b, s) => ReleaseRefines(w, b, s);
    case OpDropBuilder(b) => DropBuilderRefines(w, b);
  }

  lemma SubstrYieldsClamped(w: World, s: ImmutableString, src: ImmutableString, pos: u64, count: u64)
    requires Safe(w) && src in w.strings && s !in w.strings && CanSubstr(|Abs(w).strings[src]|, pos, count)
    requires Fits(w, |Abs(w).strings[src]| + 1)
    ensures Safe(Substr(w, s, src, pos, count))
    ensures Abs(Substr(w, s, src, pos, count))
            == Abs(w).(strings := Abs(w).strings[s := Clamped(Abs(w).strings[src], pos, count)])
  {
    var whole := Abs(w).strings[src];
    var n := SubstrCount(|whole|, pos, count);
    SubstrRefines(w, s, src, pos, count, whole, n, Substr(w, s, src, pos, count));
    SubstrClampsIffNoWrap(|whole|, pos, count);
    assert whole[pos..pos + n] == Clamped(whole, pos, count);
  }

  ghost predicate IsRun(w: World, ops: seq<Op>)
    requires Safe(w)
    decreases |ops|
  {
    ops == [] || (Enabled(w, ops[0]) && (ApplyRefines(w, ops[0]); IsRun(Apply(w, ops[0]), ops[1..])))
  }

  ghost function RunOps(w: World, ops: seq<Op>): (v: World)
    requires Safe(w) && IsRun(w, ops)
    ensures Safe(v)
    decreases |ops|
  {
    if ops == [] then w else (ApplyRefines(w, ops[0]); RunOps(Apply(w, ops[0]), ops[1..]))
  }

  ghost function ExpectedRun(v: Values, ops: seq<Op>): Values
    decreases |ops|
  {
    if ops == [] then v
    else if Named(v, ops[0]) then ExpectedRun(Expected(v, ops[0]), ops[1..])
    else v
  }

  /**
    The main result. Through any run, sharing, stealing and freeing stay invisible: the strings and builders hold
    what plain values would.
   */
  lemma {:induction false} RunRefines(w: World, ops: seq<Op>)
    requires Safe(w) && IsRun(w, ops)
    ensures Abs(RunOps(w, ops)) == ExpectedRun(Abs(w), ops)
    decreases |ops|
  {
    if ops != [] {
      ApplyRefines(w, ops[0]);
      RunRefines(Apply(w, ops[0]), ops[1..]);
    }
  }

  /** All that a string points at is live, and a zero byte follows the text of an owned one. */
  ghost predicate PointsAtLiveBytes(h: Heap, rep: Rep) {
    && (!rep.Small? ==> forall a :: rep.data <= a < rep.data + rep.size ==> a in h.bytes)
    && (rep.Owned? ==> rep.data + rep.size in h.bytes && h.bytes[rep.data + rep.size] == 0)
  }

  /** An owned block, with its terminator, shares no address with what the other string points at. */
  ghost predicate OwnsAlone(rep: Rep, other: Rep) {
    rep.Owned? ==> Apart(rep.data, rep.data + rep.size + 1, Lo(other), Hi(other))
  }

  /** A builder's buffer shares no address with what the string points at. */
  ghost predicate OutsideBuffer(bld: Builder, rep: Rep) {
    bld.buffer != 0 ==> Apart(bld.buffer, bld.buffer + bld.capacity, Lo(rep), Hi(rep))
  }

  /** No run leaves a string dangling or an owned string without its terminator. */
  lemma RunKeepsStringsLive(w: World, ops: seq<Op>, s: ImmutableString)
    requires Safe(w) && IsRun(w, ops) && s in RunOps(w, ops).strings
    ensures PointsAtLiveBytes(RunOps(w, ops).heap, RunOps(w, ops).strings[s].rep)
  {
    assert StringOk(RunOps(w, ops).heap, RunOps(w, ops).strings[s].rep);
  }

  /** No run lets a string reach into a block that another one owns. */
  lemma RunKeepsOwnersAlone(w: World, ops: seq<Op>, s: ImmutableString, t: ImmutableString)
    requires Safe(w) && IsRun(w, ops)
    requires s in RunOps(w, ops).strings && t in RunOps(w, ops).strings && s != t
    ensures OwnsAlone(RunOps(w, ops).strings[s].rep, RunOps(w, ops).strings[t].rep)
  {
    assert StringsApart(RunOps(w, ops).strings[s].rep, RunOps(w, ops).strings[t].rep);
  }

  /** No run lets a string reach into a builder's buffer. */
  lemma RunKeepsStringsOutOfBuffers(w: World, ops: seq<Op>, b: StringBuilder, s: ImmutableString)
    requires Safe(w) && IsRun(w, ops) && b in RunOps(w, ops).builders && s in RunOps(w, ops).strings
    ensures OutsideBuffer(RunOps(w, ops).builders[b], RunOps(w, ops).strings[s].rep)
  {
    assert BuilderApart(RunOps(w, ops).builders[b], RunOps(w, ops).strings[s].rep);
  }

  /** No run lets two builders share an address. */
  lemma RunKeepsBuffersApart(w: World, ops: seq<Op>, b: StringBuilder, c: StringBuilder)
    requires Safe(w) && IsRun(w, ops)
    requires b in RunOps(w, ops).builders && c in RunOps(w, ops).builders && b != c
    ensures var bld, other := RunOps(w, ops).builders[b], RunOps(w, ops).builders[c];
            bld.buffer != 0 && other.buffer != 0 ==>
              Apart(bld.buffer, bld.buffer + bld.capacity, other.buffer, other.buffer + other.capacity)
  {
    assert BuildersApart(RunOps(w, ops).builders[b], RunOps(w, ops).builders[c]);
  }

  /**
    Builders after any run: unless freshly released the buffer is live and there is room for a terminator, the
    capacity is a power of two, and all reallocations since the last release have moved fewer bytes than the capacity.
   */
  lemma RunKeepsBuilderBounds(w: World, ops: seq<Op>, b: StringBuilder)
    requires Safe(w) && IsRun(w, ops) && b in RunOps(w, ops).builders
    ensures var bld := RunOps(w, ops).builders[b];
            if bld.buffer == 0 then bld.pos == bld.capacity == 0
            else bld.pos < bld.capacity && IsPow2(bld.capacity) && bld.moved < bld.capacity
                 && Live(RunOps(w, ops).heap, bld.buffer, bld.capacity)
  {
    assert BuilderOk(RunOps(w, ops).heap, RunOps(w, ops).builders[b]);
  }

  /** The strings whose value an operation may change. */
  ghost function Touched(op: Op): set<ImmutableString> {
    match op
    case OpConstruct(s, _) => {s}
    case OpFill(s, _, _) => {s}
    case OpCopy(s, _) => {s}
    case OpMove(s, src) => {s, src}
    case OpAssign(s, _) => {s}
    case OpAssignBytes(s, _) => {s}
    case OpSubstr(s, _, _, _) => {s}
    case OpDestroy(s) => {s}
    case OpRelease(_, s) => {s}
    case _ => {}
  }

  lemma OtherStringsKeepTheirValue(w: World, op: Op, t: ImmutableString)
    requires Safe(w) && Enabled(w, op) && t in w.strings && t !in Touched(op)
    ensures Safe(Apply(w, op)) && t in Apply(w, op).strings
    ensures Abs(Apply(w, op)).strings[t] == Abs(w).strings[t]
  {
    ApplyRefines(w, op);
    assert t in Abs(Apply(w, op)).strings;
  }

  // ---------------------------------------------------------------------------------------------
  // Cached hashes
  // ---------------------------------------------------------------------------------------------

  /**
    Two operations leave a cached hash behind on new contents: moving leaves it in the emptied source, and
    assignment from characters leaves it in the target, where it fits only if the base-31 polynomials are the same.
   */
  ghost predicate LeavesNoStaleHash(w: World, op: Op)
    requires Safe(w) && Enabled(w, op)
  {
    match op
    case OpMove(_, src) => w.strings[src].hash == 0
    case OpAssignBytes(s, data) => w.strings[s].hash == 0 || Polynomial(Abs(w).strings[s]) == Polynomial(data)
    case _ => true
  }

  /** Where a string's cached hash comes from. */
  ghost predicate HashCameFrom(w: World, op: Op, t: ImmutableString, hash: u32)
    requires Safe(w) && Enabled(w, op)
  {
    match op
    case OpCopy(s, src) => if t == s then hash == w.strings[src].hash else t in w.strings && hash == w.strings[t].hash
    case OpMove(s, src) => if t == s then hash == w.strings[src].hash else t in w.strings && hash == w.strings[t].hash
    case OpAssign(s, src) => if t == s then hash == w.strings[src].hash else t in w.strings && hash == w.strings[t].hash
    case OpToHash(s) =>
      t in w.strings &&
      hash == if t == s && w.strings[s].hash == 0 then HashOf(Abs(w).strings[s]) else w.strings[t].hash
    case _ => if t in w.strings then hash == w.strings[t].hash else hash == 0
  }

  lemma HashesComeFromSomewhere(w: World, op: Op, t: ImmutableString)
    requires Safe(w) && Enabled(w, op) && t in Apply(w, op).strings
    ensures HashCameFrom(w, op, t, Apply(w, op).strings[t].hash)
  {}

  /** Given that all cached hashes agree, they still do after an operation exactly when it leaves none stale. */
  lemma HashesStayIffNoneIsStale(w: World, op: Op)
    requires Safe(w) && Enabled(w, op) && HashesAgree(w)
    ensures Safe(Apply(w, op))
    ensures HashesAgree(Apply(w, op)) <==> LeavesNoStaleHash(w, op)
  {
    ApplyRefines(w, op);
    var v := Apply(w, op);
    forall t | t in v.strings && LeavesNoStaleHash(w, op)
      ensures HashAgrees(v.strings[t].hash, Abs(v).strings[t])
    {
      HashesComeFromSomewhere(w, op, t);
    }
    if op.OpMove? {
      HashesComeFromSomewhere(w, op, op.src);
      assert HashOf([]) == 0;
      assert op.src in v.strings;
    } else if op.OpAssignBytes? {
      HashesComeFromSomewhere(w, op, op.s);
      assert op.s in v.strings;
      if w.strings[op.s].hash != 0 {
        assert HashAgrees(w.strings[op.s].hash, Abs(w).strings[op.s]);
        NonzeroHashesReflectPolynomials(Abs(w).strings[op.s], op.data);
      }
    }
  }

  lemma NonzeroHashesReflectPolynomials(s: seq<byte>, t: seq<byte>)
    requires HashOf(s) != 0
    ensures HashOf(s) == HashOf(t) <==> Polynomial(s) == Polynomial(t)
  {
    Hash.IntegerU32CollidesOnce(Polynomial(s), Polynomial(t));
    Hash.IntegerU32CollidesOnce(Polynomial(s), 0);
    Hash.IntegerU32CollidesOnce(Polynomial(t), 0);
  }

  // ---------------------------------------------------------------------------------------------
  // Runs that leave a stale hash
  // ---------------------------------------------------------------------------------------------

  const NOTHING := World(Heap(map[], map[], 1), map[], map[])

  lemma NothingIsSafe()
    ensures Safe(NOTHING) && HashesAgree(NOTHING)
  {}

  /** A string of one byte has a hash, unless that byte is the one word that mixes to zero. */
  lemma HashOfByte(x: byte)
    requires x != 0
    ensures HashOf([x]) != 0 <==> x != Hash.CollidesWithZero()
    ensures Polynomial([x]) == x && Polynomial([]) == 0
  {
    assert [x][..0] == [];
    assert Polynomial([x]) == x;
    Hash.IntegerU32CollidesOnce(x, 0);
  }

  /** The world of one string, of one byte, with the given cached hash. */
  ghost function OneByte(s: ImmutableString, x: byte, hash: u32): World {
    NOTHING.(strings := map[s := Str(Small([x]), hash)])
  }

  lemma OneByteIsSafe(s: ImmutableString, x: byte, hash: u32)
    ensures Safe(OneByte(s, x, hash)) && Abs(OneByte(s, x, hash)).strings[s] == [x]
  {}

  lemma ConstructOneByte(s: ImmutableString, x: byte)
    ensures Safe(NOTHING) && Apply(NOTHING, OpConstruct(s, [x])) == OneByte(s, x, 0)
  {
    NothingIsSafe();
  }

  lemma HashOneByte(s: ImmutableString, x: byte)
    ensures Safe(OneByte(s, x, 0)) && Apply(OneByte(s, x, 0), OpToHash(s)) == OneByte(s, x, HashOf([x]))
  {
    OneByteIsSafe(s, x, 0);
  }

  lemma RunUnfolds(w: World, op: Op, v: World, ops: seq<Op>)
    requires Safe(w) && Enabled(w, op) && v == Apply(w, op) && Safe(v) && IsRun(v, ops)
    ensures IsRun(w, [op] + ops) && RunOps(w, [op] + ops) == RunOps(v, ops)
  {
    assert ([op] + ops)[1..] == ops;
  }

  lemma HashThen(s: ImmutableString, x: byte, last: Op, v: World)
    requires var w := OneByte(s, x, HashOf([x])); Safe(w) && Enabled(w, last) && v == Apply(w, last) && Safe(v)
    ensures Safe(NOTHING)
    ensures var ops := [OpConstruct(s, [x]), OpToHash(s), last]; IsRun(NOTHING, ops) && RunOps(NOTHING, ops) == v
  {
    ConstructOneByte(s, x);
    HashOneByte(s, x);
    var a, b := OpConstruct(s, [x]), OpToHash(s);
    RunUnfolds(OneByte(s, x, HashOf([x])), last, v, []);
    assert [last] + [] == [last];
    RunUnfolds(OneByte(s, x, 0), b, OneByte(s, x, HashOf([x])), [last]);
    assert [b] + [last] == [b, last];
    RunUnfolds(NOTHING, a, OneByte(s, x, 0), [b, last]);
    assert [a] + [b, last] == [a, b, last];
  }

  lemma StaleAfter(s: ImmutableString, x: byte, last: Op)
    requires var w := OneByte(s, x, HashOf([x])); Safe(w) && Enabled(w, last) && !LeavesNoStaleHash(w, last)
    ensures Safe(NOTHING)
    ensures var ops := [OpConstruct(s, [x]), OpToHash(s), last];
            IsRun(NOTHING, ops) && !HashesAgree(RunOps(NOTHING, ops))
  {
    var w := OneByte(s, x, HashOf([x]));
    OneByteIsSafe(s, x, HashOf([x]));
    HashesStayIffNoneIsStale(w, last);
    HashThen(s, x, last, Apply(w, last));
  }

  /** From the empty world: the hash of a byte stays cached when the string is set to the empty one. */
  lemma AssignmentLeavesStaleHash(s: ImmutableString, x: byte)
    requires x != 0 && x != Hash.CollidesWithZero()
    ensures Safe(NOTHING)
    ensures var ops := [OpConstruct(s, [x]), OpToHash(s), OpAssignBytes(s, [])];
            IsRun(NOTHING, ops) && !HashesAgree(RunOps(NOTHING, ops))
  {
    HashOfByte(x);
    OneByteIsSafe(s, x, HashOf([x]));
    StaleAfter(s, x, OpAssignBytes(s, []));
  }

  /** Likewise when the string is moved from. */
  lemma MoveLeavesStaleHash(s: ImmutableString, t: ImmutableString, x: byte)
    requires s != t && x != 0 && x != Hash.CollidesWithZero()
    ensures Safe(NOTHING)
    ensures var ops := [OpConstruct(s, [x]), OpToHash(s), OpMove(t, s)];
            IsRun(NOTHING, ops) && !HashesAgree(RunOps(NOTHING, ops))
  {
    HashOfByte(x);
    OneByteIsSafe(s, x, HashOf([x]));
    StaleAfter(s, x, OpMove(t, s));
  }

  ghost predicate NoStaleHashes(w: World, ops: seq<Op>)
    requires Safe(w) && IsRun(w, ops)
    decreases |ops|
  {
    ops == [] ||
    (LeavesNoStaleHash(w, ops[0]) && (ApplyRefines(w, ops[0]); NoStaleHashes(Apply(w, ops[0]), ops[1..])))
  }

  lemma {:induction false} RunKeepsHashes(w: World, ops: seq<Op>)
    requires Safe(w) && IsRun(w, ops) && HashesAgree(w) && NoStaleHashes(w, ops)
    ensures HashesAgree(RunOps(w, ops))
    decreases |ops|
  {
    if ops != [] {
      HashesStayIffNoneIsStale(w, ops[0]);
      RunKeepsHashes(Apply(w, ops[0]), ops[1..]);
    }
  }

  /** All cached hashes agree before the run and after each of its operations. */
  ghost predicate HashesAgreeThroughout(w: World, ops: seq<Op>)
    requires Safe(w) && IsRun(w, ops)
    decreases |ops|
  {
    HashesAgree(w) && (ops == [] || (ApplyRefines(w, ops[0]); HashesAgreeThroughout(Apply(w, ops[0]), ops[1..])))
  }

  lemma {:induction false} HashesAgreeThroughoutIff(w: World, ops: seq<Op>)
    requires Safe(w) && IsRun(w, ops) && HashesAgree(w)
    ensures HashesAgreeThroughout(w, ops) <==> NoStaleHashes(w, ops)
    decreases |ops|
  {
    if ops != [] {
      HashesStayIffNoneIsStale(w, ops[0]);
      if LeavesNoStaleHash(w, ops[0]) {
        HashesAgreeThroughoutIff(Apply(w, ops[0]), ops[1..]);
      }
    }
  }

  /** Equal strings hash equal, small, owned or shared, cached or not. */
  lemma EqualStringsHashEqual(w: World, s: ImmutableString, t: ImmutableString)
    requires Safe(w) && HashesAgree(w) && s in w.strings && t in w.strings
    requires Abs(w).strings[s] == Abs(w).strings[t]
    ensures ToHash(w, s).strings[s].hash == ToHash(w, t).strings[t].hash == HashOf(Abs(w).strings[s])
  {
    assert HashAgrees(w.strings[s].hash, Abs(w).strings[s]);
    assert HashAgrees(w.strings[t].hash, Abs(w).strings[t]);
  }
}

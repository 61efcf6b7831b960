/**
  The methods of `immutable_string` and `string_builder`, on the 24-byte storage and the heap. Each takes one
  operation of `StringRuns`.
 */
module StringRuntime {

  import opened Wrappers
  import opened Words
  import Hash
  import opened ByteHeap
  import opened StringLayout
  import opened StringObjects
  import opened StringTheory
  import opened StringOperations
  import opened BuilderOperations
  import opened StringRuns

  datatype OutOfRange = PositionOutsideOfString

  lemma TwoEntriesChanged<K, V>(m: map<K, V>, n: map<K, V>, k: K, v: V, l: K, u: V)
    requires k in m && k != l && n.Keys == m.Keys + {l} && n[k] == v && n[l] == u
    requires forall j :: j in n && j != k && j != l ==> n[j] == m[j]
    ensures n == m[k := v][l := u]
  {}

  lemma Arrives(w: World, op: Op, v: World)
    requires Safe(w) && Enabled(w, op) && v == Apply(w, op)
    ensures Safe(v) && Outcome(w, op) == Some(v)
  {
    ApplyRefines(w, op);
  }

  class Runtime {
    var heap: Heap
    ghost var strings: set<ImmutableString>
    ghost var builders: set<StringBuilder>

    ghost function State(): World
      reads this, strings, builders
    {
      World(heap,
            map s | s in strings :: Str(Decode(s.store), s.hash),
            map b | b in builders :: Builder(b.buffer, b.pos, b.capacity, b.moved))
    }

    ghost predicate Valid()
      reads this, strings, builders
    {
      Safe(State())
    }

    constructor ()
      ensures Valid() && strings == {} && builders == {}
    {
      heap := Heap(map[], map[], 1);
      strings, builders := {}, {};
    }

    twostate lemma StringsWith(new s: ImmutableString, new str: Str)
      requires str == Str(Decode(s.store), s.hash) && strings == old(strings) + {s}
      requires forall t :: t in old(strings) && t != s ==> unchanged(t)
      ensures State().strings == old(State()).strings[s := str]
    {
      forall t | t in State().strings && t != s ensures State().strings[t] == old(State()).strings[t] {}
      assert State().strings.Keys == old(State()).strings.Keys + {s};
    }

    twostate lemma BuildersWith(new b: StringBuilder, new bld: Builder)
      requires bld == Builder(b.buffer, b.pos, b.capacity, b.moved) && builders == old(builders) + {b}
      requires forall c :: c in old(builders) && c != b ==> unchanged(c)
      ensures State().builders == old(State()).builders[b := bld]
    {
      forall c | c in State().builders && c != b ensures State().builders[c] == old(State()).builders[c] {}
    }

    twostate lemma SameStrings()
      requires strings == old(strings) && forall t :: t in strings ==> unchanged(t)
      ensures State().strings == old(State()).strings
    {}

    twostate lemma SameBuilders()
      requires builders == old(builders) && forall b :: b in builders ==> unchanged(b)
      ensures State().builders == old(State()).builders
    {}

    /** `s` is new or was changed, and nothing else but the heap. */
    twostate lemma OneStringChanged(new s: ImmutableString, new str: Str)
      requires str == Str(Decode(s.store), s.hash)
      requires strings == old(strings) + {s} && builders == old(builders)
      requires forall t :: t in old(strings) && t != s ==> unchanged(t)
      requires forall b :: b in builders ==> unchanged(b)
      ensures State() == PutString(old(State()), s, str).(heap := heap)
      ensures heap == old(heap) ==> State() == PutString(old(State()), s, str)
    {
      StringsWith(s, str);
      SameBuilders();
    }

    /** `s` is new or was changed, `src` was changed, and nothing else but the heap. */
    twostate lemma TwoStringsChanged(new s: ImmutableString, new str: Str, src: ImmutableString, new srcStr: Str)
      requires str == Str(Decode(s.store), s.hash)
      requires srcStr == Str(Decode(src.store), src.hash)
      requires s != src && src in old(strings)
      requires strings == old(strings) + {s} && builders == old(builders)
      requires forall t :: t in old(strings) && t != s && t != src ==> unchanged(t)
      requires forall b :: b in builders ==> unchanged(b)
      ensures State() == PutString(PutString(old(State()), src, srcStr), s, str).(heap := heap)
      ensures heap == old(heap) ==> State() == PutString(PutString(old(State()), src, srcStr), s, str)
    {
      SameBuilders();
      forall t | t in State().strings && t != s && t != src ensures State().strings[t] == old(State()).strings[t] {}
      TwoEntriesChanged(old(State()).strings, State().strings, src, srcStr, s, str);
    }

    /** `b` is new or was changed, and nothing else but the heap. */
    twostate lemma OneBuilderChanged(new b: StringBuilder, new bld: Builder)
      requires bld == Builder(b.buffer, b.pos, b.capacity, b.moved)
      requires strings == old(strings) && builders == old(builders) + {b}
      requires forall t :: t in strings ==> unchanged(t)
      requires forall c :: c in old(builders) && c != b ==> unchanged(c)
      ensures State() == PutBuilder(old(State()), b, bld).(heap := heap)
      ensures heap == old(heap) ==> State() == PutBuilder(old(State()), b, bld)
    {
      BuildersWith(b, bld);
      SameStrings();
    }

    /** `s` is new, `b` was changed, and nothing else. */
    twostate lemma StringAndBuilderChanged(new s: ImmutableString, new str: Str, b: StringBuilder, new bld: Builder)
      requires str == Str(Decode(s.store), s.hash)
      requires bld == Builder(b.buffer, b.pos, b.capacity, b.moved)
      requires strings == old(strings) + {s} && builders == old(builders) && b in builders && heap == old(heap)
      requires forall t :: t in old(strings) && t != s ==> unchanged(t)
      requires forall c :: c in builders && c != b ==> unchanged(c)
      ensures State() == PutString(PutBuilder(old(State()), b, bld), s, str)
    {
      StringsWith(s, str);
      assert builders == old(builders) + {b};
      BuildersWith(b, bld);
    }

    // -------------------------------------------------------------------------------------------
    // Reading
    // -------------------------------------------------------------------------------------------

    /** The bytes at `data()`. */
    method Bytes(s: ImmutableString) returns (r: seq<byte>)
      requires Valid() && s in strings
      ensures r == Abs(State()).strings[s]
    {
      var rep := Decode(s.store);
      assert State().strings[s].rep == rep && StringOk(heap, rep);
      r := if rep.Small? then rep.chars else Read(heap, rep.data, rep.size);
    }

    // -------------------------------------------------------------------------------------------
    // Construction
    // -------------------------------------------------------------------------------------------

    method NewSmall(chars: seq<byte>) returns (s: ImmutableString)
      requires |chars| <= MAX_SMALL_SIZE
      modifies this`strings
      ensures fresh(s) && strings == old(strings) + {s}
      ensures State() == PutString(old(State()), s, Str(Small(chars), 0))
    {
      s := new ImmutableString.FromSmall(chars);
      strings := strings + {s};
      OneStringChanged(s, Str(Small(chars), 0));
    }

    method NewOwned(text: seq<byte>) returns (s: ImmutableString)
      requires Fits(State(), |text| + 1)
      modifies this`heap, this`strings
      ensures fresh(s) && strings == old(strings) + {s}
      ensures State() == PutString(Allocate(old(State()), text + [0]), s, Str(Owned(old(heap.next), |text|), 0))
    {
      s := new ImmutableString.FromLarge(heap.next, |text|, true);
      heap := Alloc(heap, text + [0]);
      strings := strings + {s};
      OneStringChanged(s, Str(Owned(old(heap.next), |text|), 0));
    }

    method Construct(data: seq<byte>) returns (s: ImmutableString)
      requires Valid() && (|data| > MAX_SMALL_SIZE ==> Fits(State(), |data| + 1))
      modifies this`heap, this`strings
      ensures Valid() && fresh(s) && strings == old(strings) + {s}
      ensures Outcome(old(State()), OpConstruct(s, data)) == Some(State())
    {
      ghost var w := State();
      if |data| <= MAX_SMALL_SIZE {
        s := NewSmall(data);
      } else {
        s := NewOwned(data);
      }
      Arrives(w, OpConstruct(s, data), State());
    }

    method Fill(size: u64, c: byte) returns (s: ImmutableString)
      requires Valid() && (size > MAX_SMALL_SIZE ==> Fits(State(), FilledSize(size) + 1))
      modifies this`heap, this`strings
      ensures Valid() && fresh(s) && strings == old(strings) + {s}
      ensures Outcome(old(State()), OpFill(s, size, c)) == Some(State())
    {
      ghost var w := State();
      if size <= MAX_SMALL_SIZE {
        s := NewSmall(Repeat(c, size));
      } else {
        s := NewOwned(Repeat(c, size % 256));
      }
      FillArrives(w, s, size, c, State());
    }

    method Copy(src: ImmutableString) returns (s: ImmutableString)
      requires Valid() && src in strings
      modifies this`strings, src`store
      ensures Valid() && fresh(s) && strings == old(strings) + {s}
      ensures Outcome(old(State()), OpCopy(s, src)) == Some(State())
    {
      ghost var w := State();
      s := new ImmutableString.FromStore(src);
      src.Share();
      s.Share();
      strings := strings + {s};
      ghost var shared := AsShared(w.strings[src]);
      TwoStringsChanged(s, shared, src, shared);
      Arrives(w, OpCopy(s, src), State());
    }

    method Move(src: ImmutableString) returns (s: ImmutableString)
      requires Valid() && src in strings
      modifies this`strings, src`store
      ensures Valid() && fresh(s) && strings == old(strings) + {s}
      ensures Outcome(old(State()), OpMove(s, src)) == Some(State())
    {
      ghost var w := State();
      s := new ImmutableString.FromStore(src);
      src.SetSmall([]);
      strings := strings + {s};
      TwoStringsChanged(s, w.strings[src], src, Str(Small([]), src.hash));
      Arrives(w, OpMove(s, src), State());
    }

    /** `destroy` */
    method FreeOwned(s: ImmutableString)
      requires Valid() && s in strings
      modifies this`heap
      ensures heap == DropString(old(State()), s).heap
    {
      var rep := Decode(s.store);
      assert State().strings[s].rep == rep && StringOk(heap, rep);
      if rep.Owned? {
        heap := Free(heap, rep.data);
      }
    }

    method Assign(dst: ImmutableString, src: ImmutableString)
      requires Valid() && dst in strings && src in strings
      modifies this`heap, dst, src`store
      ensures Valid()
      ensures Outcome(old(State()), OpAssign(dst, src)) == Some(State())
    {
      ghost var w := State();
      if dst == src {
        Arrives(w, OpAssign(dst, src), State());
        return;
      }
      FreeOwned(dst);
      dst.TakeStore(src);
      if Decode(src.store).Owned? {
        src.Share();
        dst.Share();
      }
      ghost var shared := AsShared(w.strings[src]);
      TwoStringsChanged(dst, shared, src, shared);
      DroppingFirst(w, dst, src, shared, shared);
      Arrives(w, OpAssign(dst, src), State());
    }

    method AssignBytes(dst: ImmutableString, data: seq<byte>)
      requires Valid() && dst in strings && (|data| > MAX_SMALL_SIZE ==> Fits(State(), |data| + 1))
      modifies this`heap, dst`store
      ensures Valid()
      ensures Outcome(old(State()), OpAssignBytes(dst, data)) == Some(State())
    {
      ghost var w := State();
      FreeOwned(dst);
      if |data| <= MAX_SMALL_SIZE {
        dst.SetSmall(data);
      } else {
        dst.SetLarge(heap.next, |data|, true);
        heap := Alloc(heap, data + [0]);
      }
      ghost var str := Str(if |data| <= MAX_SMALL_SIZE then Small(data) else Owned(w.heap.next, |data|), dst.hash);
      OneStringChanged(dst, str);
      ReplacingIsAdding(w.strings, dst, str);
      Arrives(w, OpAssignBytes(dst, data), State());
    }

    method Substr(src: ImmutableString, pos: u64, count: u64) returns (r: Result<ImmutableString, OutOfRange>)
      requires Valid() && src in strings && Fits(State(), |Abs(State()).strings[src]| + 1)
      requires count == NPOS || pos + count < TWO_64
      modifies this`heap, this`strings, src`store
      ensures Valid()
      ensures r.Failure? <==> |Abs(old(State())).strings[src]| < pos
      ensures r.Failure? ==> State() == old(State())
      ensures r.Success? ==>
                && fresh(r.value) && strings == old(strings) + {r.value}
                && Outcome(old(State()), OpSubstr(r.value, src, pos, count)) == Some(State())
    {
      var whole := Bytes(src);
      if |whole| < pos {
        return Failure(PositionOutsideOfString);
      }
      var s := SubstrInside(src, pos, count, whole);
      r := Success(s);
    }

    method SubstrInside(src: ImmutableString, pos: u64, count: u64, whole: seq<byte>) returns (s: ImmutableString)
      requires Valid() && src in strings && Fits(State(), |whole| + 1)
      requires whole == Abs(State()).strings[src] && CanSubstr(|whole|, pos, count)
      modifies this`heap, this`strings, src`store
      ensures Valid() && fresh(s) && strings == old(strings) + {s}
      ensures Outcome(old(State()), OpSubstr(s, src, pos, count)) == Some(State())
    {
      ghost var w := State();
      ghost var str := w.strings[src];
      SubstrClampsIffNoWrap(|whole|, pos, count);
      LargeStringsAreLarge(w, src);
      var n := if count == NPOS || |whole| < Wrap64(pos + count) then |whole| - pos else count;
      s := Slice(src, str, whole, pos, n);
      SubstrIsSlice(w, s, src, str, whole, pos, count, n, State());
    }

    method Slice(src: ImmutableString, ghost str: Str, whole: seq<byte>, pos: nat, n: nat) returns (s: ImmutableString)
      requires src in strings && str == Str(Decode(src.store), src.hash) && CanSlice(State(), str, whole, pos, n)
      modifies this`heap, this`strings, src`store
      ensures fresh(s) && strings == old(strings) + {s}
      ensures State() == SliceInto(old(State()), s, src, str, whole, pos, n)
    {
      if n <= MAX_SMALL_SIZE {
        s := NewSmall(whole[pos..pos + n]);
      } else if |whole| - n > MAX_SHARED_DIFFERENCE {
        s := SliceOwned(src, str, whole, pos, n);
      } else {
        s := SliceShared(src, str, pos, n);
      }
    }

    method SliceOwned(ghost src: ImmutableString, ghost str: Str, whole: seq<byte>, pos: nat, n: nat)
      returns (s: ImmutableString)
      requires CanSlice(State(), str, whole, pos, n) && n > MAX_SMALL_SIZE && |whole| - n > MAX_SHARED_DIFFERENCE
      modifies this`heap, this`strings
      ensures fresh(s) && strings == old(strings) + {s}
      ensures State() == SliceInto(old(State()), s, src, str, whole, pos, n)
    {
      ghost var w := State();
      s := NewOwned(whole[pos..pos + n]);
      SliceIsOwned(w, s, src, str, whole, pos, n);
    }

    method SliceShared(src: ImmutableString, ghost str: Str, pos: nat, n: nat) returns (s: ImmutableString)
      requires src in strings && str == Str(Decode(src.store), src.hash) && !str.rep.Small?
      requires str.rep.data + pos < TWO_64 && n < TWO_64
      modifies this`strings, src`store
      ensures fresh(s) && strings == old(strings) + {s}
      ensures State() == PutString(PutString(old(State()), src, AsShared(str)), s, Str(Shared(str.rep.data + pos, n), 0))
    {
      s := new ImmutableString.FromLarge(Decode(src.store).data + pos, n, false);
      src.Share();
      strings := strings + {s};
      TwoStringsChanged(s, Str(Shared(str.rep.data + pos, n), 0), src, AsShared(str));
    }

    /** Where the characters are, terminated: the string's own storage or an address. */
    method CStr(s: ImmutableString) returns (address: nat)
      requires Valid() && s in strings && Fits(State(), |Abs(State()).strings[s]| + 1)
      modifies this`heap, s`store
      ensures Valid()
      ensures Outcome(old(State()), OpCStr(s)) == Some(State())
      ensures PointsToText(s.store, heap, address, Abs(old(State())).strings[s])
    {
      Reown(s);
      SmallOrTerminated(State(), s);
      address := if Decode(s.store).Small? then 0 else Decode(s.store).data;
    }

    method Reown(s: ImmutableString)
      requires Valid() && s in strings && Fits(State(), |Abs(State()).strings[s]| + 1)
      modifies this`heap, s`store
      ensures Valid() && !State().strings[s].rep.Shared?
      ensures Outcome(old(State()), OpCStr(s)) == Some(State())
      ensures Abs(State()) == Abs(old(State()))
    {
      ghost var w := State();
      assert w.strings[s].rep == Decode(s.store);
      if Decode(s.store).Shared? {
        OwnCopy(s);
        HeapThenString(w, heap, s, State().strings[s]);
      }
      CStrArrives(w, s, State());
    }

    /** The text goes to a block of its own. */
    method OwnCopy(s: ImmutableString)
      requires Valid() && s in strings && Fits(State(), |Abs(State()).strings[s]| + 1)
      modifies this`heap, s`store
      ensures var w, text := old(State()), Abs(old(State())).strings[s];
              State() == PutString(w, s, Str(Owned(w.heap.next, |text|), w.strings[s].hash))
                         .(heap := Alloc(w.heap, text + [0]))
    {
      var text := Bytes(s);
      ghost var str := Str(Owned(heap.next, |text|), s.hash);
      s.SetLarge(heap.next, |text|, true);
      heap := Alloc(heap, text + [0]);
      OneStringChanged(s, str);
    }

    /** The stored hash doubles as the accumulator. */
    method ToHash(s: ImmutableString) returns (h: u32)
      requires Valid() && s in strings
      modifies s`hash
      ensures Valid()
      ensures Outcome(old(State()), OpToHash(s)) == Some(State())
      ensures h == if old(s.hash) != 0 then old(s.hash) else HashOf(Abs(old(State())).strings[s])
    {
      ghost var w := State();
      if s.hash != 0 {
        Arrives(w, OpToHash(s), State());
        return s.hash;
      }
      var text := Bytes(s);
      Accumulate(s, text);
      OneStringChanged(s, Str(w.strings[s].rep, HashOf(text)));
      Arrives(w, OpToHash(s), State());
      h := s.hash;
    }

    static method Accumulate(s: ImmutableString, text: seq<byte>)
      requires s.hash == 0
      modifies s`hash
      ensures s.hash == HashOf(text)
    {
      for i := 0 to |text|
        invariant s.hash == Polynomial(text[..i])
      {
        s.hash := Wrap32(31 * s.hash + text[i]);
        assert text[..i + 1][..i] == text[..i];
      }
      assert text[..|text|] == text;
      s.hash := Hash.IntegerU32(s.hash);
    }

    method Destroy(s: ImmutableString)
      requires Valid() && s in strings
      modifies this`heap, this`strings
      ensures Valid() && strings == old(strings) - {s}
      ensures Outcome(old(State()), OpDestroy(s)) == Some(State())
    {
      ghost var w := State();
      FreeOwned(s);
      strings := strings - {s};
      assert State().strings == w.strings - {s};
      assert State().builders == w.builders;
      Arrives(w, OpDestroy(s), State());
    }

    // -------------------------------------------------------------------------------------------
    // Builders
    // -------------------------------------------------------------------------------------------

    /** `realloc`; the bytes of a new block that nothing was moved into are unspecified. */
    method Realloc(b: StringBuilder, required: nat) returns (ghost junk: seq<byte>)
      requires Valid() && b in builders && b.capacity < BitCeil(required) && Fits(State(), BitCeil(required))
      requires b.pos < BitCeil(required)
      modifies this`heap, b
      ensures CanReallocate(old(State()), old(State()).builders[b], required, junk)
      ensures Valid() && State() == Reallocate(old(State()), b, required, junk)
      ensures Abs(State()) == Abs(old(State()))
    {
      ghost var w := State();
      ghost var before := w.builders[b];
      var n := BitCeil(required);
      var raw := new byte[n - b.capacity];
      junk := raw[..];
      assert State() == w && BuilderOk(w.heap, before);
      var p := b.buffer;
      var block := Moved(heap, Builder(b.buffer, b.pos, b.capacity, 0), raw[..]);
      b.moved := b.moved + b.capacity;
      b.buffer, b.capacity := heap.next, n;
      heap := Alloc(heap, block);
      if p != 0 {
        heap := Free(heap, p);
      }
      ghost var after := Builder(w.heap.next, before.pos, n, before.moved + before.capacity);
      OneBuilderChanged(b, after);
      ReallocArrives(w, b, required, junk, before, after, State());
    }

    method MaybeRealloc(b: StringBuilder, additional: nat) returns (ghost junk: seq<byte>)
      requires Valid() && b in builders && Fits(State(), BitCeil(b.pos + additional + 1))
      modifies this`heap, b
      ensures CanGrow(old(State()), b, additional, junk)
      ensures Valid() && State() == Grow(old(State()), b, additional, junk)
      ensures Abs(State()) == Abs(old(State())) && b.pos == old(b.pos)
      ensures b.buffer != 0 && b.pos + additional < b.capacity
    {
      ghost var w := State();
      junk := [];
      var required := b.pos + additional + 1;
      ghost var before := w.builders[b];
      if b.capacity < required {
        junk := Realloc(b, required);
        GrowsByRealloc(w, b, additional, junk, before, required);
      } else {
        HasRoom(w, b, additional, junk, before);
      }
      GrowArrives(w, b, additional, junk, State());
      assert State().builders[b] == Builder(b.buffer, b.pos, b.capacity, b.moved);
    }

    /** `write` */
    method WriteBytes(b: StringBuilder, data: seq<byte>)
      requires Valid() && b in builders && b.buffer != 0 && b.pos + |data| < b.capacity
      modifies this`heap, b`pos
      ensures State() == WriteText(old(State()), b, data)
    {
      ghost var bld := State().builders[b];
      heap := Write(heap, b.buffer + b.pos, data);
      b.pos := b.pos + |data|;
      OneBuilderChanged(b, bld.(pos := bld.pos + |data|));
    }

    method NewBuilder(capacity: u64) returns (b: StringBuilder, ghost junk: seq<byte>)
      requires Valid() && Fits(State(), BitCeil(capacity))
      modifies this`heap, this`builders
      ensures Valid() && fresh(b) && builders == old(builders) + {b}
      ensures Outcome(old(State()), OpNewBuilder(b, capacity, junk)) == Some(State())
    {
      ghost var w := State();
      b := new StringBuilder(capacity);
      var n := BitCeil(capacity);
      var raw := new byte[n];
      junk := raw[..];
      b.buffer, b.capacity := heap.next, n;
      heap := Alloc(heap, raw[..]);
      builders := builders + {b};
      OneBuilderChanged(b, Builder(w.heap.next, 0, n, 0));
      Arrives(w, OpNewBuilder(b, capacity, junk), State());
    }

    /** `operator()(std::string const &)` and the other overloads that append given characters. */
    method Append(b: StringBuilder, data: seq<byte>) returns (ghost junk: seq<byte>)
      requires Valid() && b in builders && Fits(State(), BitCeil(b.pos + |data| + 1))
      modifies this`heap, b
      ensures Valid()
      ensures Outcome(old(State()), OpAppend(b, data, junk)) == Some(State())
    {
      ghost var w := State();
      junk := MaybeRealloc(b, |data|);
      ghost var grown := State();
      WriteBytes(b, data);
      AppendArrives(w, b, data, junk, grown, State());
    }

    /** `operator()(immutable_string const &)`: the characters are read after the buffer may have moved. */
    method AppendString(b: StringBuilder, s: ImmutableString) returns (ghost junk: seq<byte>)
      requires Valid() && b in builders && s in strings
      requires Fits(State(), BitCeil(b.pos + |Abs(State()).strings[s]| + 1))
      modifies this`heap, b
      ensures Valid()
      ensures Outcome(old(State()), OpAppend(b, Abs(old(State())).strings[s], junk)) == Some(State())
    {
      ghost var w := State();
      ghost var text := Abs(w).strings[s];
      var size := SizeOf(Decode(s.store));
      assert size == |text| by { assert w.strings[s].rep == Decode(s.store); }
      junk := MaybeRealloc(b, size);
      ghost var grown := State();
      WriteString(b, s);
      AppendArrives(w, b, text, junk, grown, State());
    }

    method WriteString(b: StringBuilder, s: ImmutableString)
      requires Valid() && b in builders && s in strings
      requires b.buffer != 0 && b.pos + |Abs(State()).strings[s]| < b.capacity
      modifies this`heap, b`pos
      ensures State() == WriteText(old(State()), b, Abs(old(State())).strings[s])
    {
      ghost var w := State();
      var text := Bytes(s);
      assert State() == w;
      WriteBytes(b, text);
    }

    method Clear(b: StringBuilder)
      requires Valid() && b in builders
      modifies b`pos
      ensures Valid()
      ensures Outcome(old(State()), OpClear(b)) == Some(State())
    {
      ghost var w := State();
      b.pos := 0;
      OneBuilderChanged(b, w.builders[b].(pos := 0));
      Arrives(w, OpClear(b), State());
    }

    method Reserve(b: StringBuilder, capacity: u64) returns (ghost junk: seq<byte>)
      requires Valid() && b in builders && Fits(State(), BitCeil(capacity))
      modifies this`heap, b
      ensures Valid()
      ensures Outcome(old(State()), OpReserve(b, capacity, junk)) == Some(State())
    {
      ghost var w := State();
      assert BuilderOk(w.heap, w.builders[b]);
      junk := [];
      if b.capacity < capacity {
        junk := Realloc(b, capacity);
      }
      Arrives(w, OpReserve(b, capacity, junk), State());
    }

    method Release(b: StringBuilder) returns (s: ImmutableString)
      requires Valid() && b in builders
      modifies this`strings, b
      ensures Valid() && fresh(s) && strings == old(strings) + {s}
      ensures Outcome(old(State()), OpRelease(b, s)) == Some(State())
    {
      ghost var w := State();
      ghost var bld := w.builders[b];
      assert BuilderOk(w.heap, bld);
      ghost var rep := if bld.pos <= MAX_SMALL_SIZE then Small(BuilderContents(heap, bld)) else Shared(bld.buffer, bld.pos);
      if b.pos <= MAX_SMALL_SIZE {
        var chars := if b.buffer == 0 then [] else Read(heap, b.buffer, b.pos);
        s := new ImmutableString.FromSmall(chars);
      } else {
        s := new ImmutableString.FromLarge(b.buffer, b.pos, false);
      }
      b.pos, b.capacity, b.buffer := 0, 0, 0;
      b.moved := 0;
      strings := strings + {s};
      StringAndBuilderChanged(s, Str(rep, 0), b, NO_BUFFER);
      ReleaseArrives(w, b, s, bld, rep, State());
    }

    method DropBuilder(b: StringBuilder)
      requires Valid() && b in builders
      modifies this`heap, this`builders
      ensures Valid() && builders == old(builders) - {b}
      ensures Outcome(old(State()), OpDropBuilder(b)) == Some(State())
    {
      ghost var w := State();
      assert BuilderOk(w.heap, w.builders[b]);
      if b.buffer != 0 {
        heap := Free(heap, b.buffer);
      }
      builders := builders - {b};
      assert State().builders == w.builders - {b};
      assert State().strings == w.strings;
      Arrives(w, OpDropBuilder(b), State());
    }
  }

  lemma GrowsByRealloc(w: World, b: StringBuilder, additional: nat, junk: seq<byte>, before: Builder, required: nat)
    requires Safe(w) && b in w.builders && before == w.builders[b] && required == before.pos + additional + 1
    requires before.capacity < required && CanReallocate(w, before, required, junk)
    ensures CanGrow(w, b, additional, junk) && Grow(w, b, additional, junk) == Reallocate(w, b, required, junk)
  {}

  lemma HasRoom(w: World, b: StringBuilder, additional: nat, junk: seq<byte>, before: Builder)
    requires Safe(w) && b in w.builders && before == w.builders[b] && before.pos + additional < before.capacity
    ensures CanGrow(w, b, additional, junk) && Grow(w, b, additional, junk) == w
  {}

  lemma GrowArrives(w: World, b: StringBuilder, additional: nat, junk: seq<byte>, v: World)
    requires CanGrow(w, b, additional, junk) && v == Grow(w, b, additional, junk)
    ensures Safe(v) && Abs(v) == Abs(w) && b in v.builders && v.builders[b].buffer != 0
    ensures v.builders[b].pos == w.builders[b].pos && v.builders[b].pos + additional < v.builders[b].capacity
  {
    GrowRefines(w, b, additional, junk);
  }

  lemma ReleaseArrives(w: World, b: StringBuilder, s: ImmutableString, bld: Builder, rep: Rep, v: World)
    requires Safe(w) && b in w.builders && s !in w.strings && bld == w.builders[b]
    requires rep == if bld.pos <= MAX_SMALL_SIZE then Small(BuilderContents(w.heap, bld)) else Shared(bld.buffer, bld.pos)
    requires v == PutString(PutBuilder(w, b, NO_BUFFER), s, Str(rep, 0))
    ensures Safe(v) && Outcome(w, OpRelease(b, s)) == Some(v)
  {
    Arrives(w, OpRelease(b, s), v);
  }

  lemma AppendArrives(w: World, b: StringBuilder, data: seq<byte>, junk: seq<byte>, grown: World, v: World)
    requires CanGrow(w, b, |data|, junk) && grown == Grow(w, b, |data|, junk) && b in grown.builders
    requires grown.builders[b].pos + |data| < grown.builders[b].capacity && v == WriteText(grown, b, data)
    ensures Safe(v) && Outcome(w, OpAppend(b, data, junk)) == Some(v)
  {
    Arrives(w, OpAppend(b, data, junk), v);
  }

  lemma ReallocArrives(w: World, b: StringBuilder, required: nat, junk: seq<byte>, before: Builder, after: Builder, v: World)
    requires Safe(w) && b in w.builders && before == w.builders[b]
    requires CanReallocate(w, before, required, junk) && before.pos < BitCeil(required)
    requires after == Builder(w.heap.next, before.pos, BitCeil(required), before.moved + before.capacity)
    requires before.buffer != 0 ==> before.buffer in w.heap.blocks
    requires var grown := Alloc(w.heap, Moved(w.heap, before, junk));
             v == PutBuilder(w, b, after).(heap := if before.buffer == 0 then grown else Free(grown, before.buffer))
    ensures Safe(v) && v == Reallocate(w, b, required, junk) && Abs(v) == Abs(w)
  {
    ReallocIsReallocate(w, b, required, junk, before, after, v);
    ReallocateRefines(w, b, required, junk);
  }

  lemma ReallocIsReallocate(w: World, b: StringBuilder, required: nat, junk: seq<byte>, before: Builder, after: Builder, v: World)
    requires Safe(w) && b in w.builders && before == w.builders[b]
    requires CanReallocate(w, before, required, junk)
    requires after == Builder(w.heap.next, before.pos, BitCeil(required), before.moved + before.capacity)
    requires before.buffer != 0 ==> before.buffer in w.heap.blocks
    requires var grown := Alloc(w.heap, Moved(w.heap, before, junk));
             v == PutBuilder(w, b, after).(heap := if before.buffer == 0 then grown else Free(grown, before.buffer))
    ensures v == Reallocate(w, b, required, junk)
  {
    var u := Regrown(w, b, required, junk);
    assert u == PutBuilder(w, b, after).(heap := Alloc(w.heap, Moved(w.heap, before, junk)));
  }

  /** What `c_str` points at: the string's own storage, or the heap, with a zero byte behind the text. */
  ghost predicate PointsToText(store: tagged, h: Heap, address: nat, text: seq<byte>)
  {
    if Decode(store).Small? then
      text <= store && |text| < 24 && store[|text|] == 0
    else
      TerminatedText(h, address, text)
  }

  ghost predicate TerminatedText(h: Heap, address: nat, text: seq<byte>) {
    Live(h, address, |text| + 1) && Read(h, address, |text|) == text && h.bytes[address + |text|] == 0
  }

  lemma HeapThenString(w: World, h: Heap, s: ImmutableString, str: Str)
    ensures PutString(w, s, str).(heap := h) == PutString(w.(heap := h), s, str)
  {}

  lemma FillArrives(w: World, s: ImmutableString, size: u64, c: byte, v: World)
    requires Safe(w) && s !in w.strings && (size > MAX_SMALL_SIZE ==> Fits(w, FilledSize(size) + 1))
    requires v == InitFill(w, s, size, c)
    ensures Safe(v) && Outcome(w, OpFill(s, size, c)) == Some(v)
  {
    Arrives(w, OpFill(s, size, c), v);
  }

  lemma CStrArrives(w: World, s: ImmutableString, v: World)
    requires Safe(w) && s in w.strings && Fits(w, |Abs(w).strings[s]| + 1) && v == CStr(w, s)
    ensures Safe(v) && Outcome(w, OpCStr(s)) == Some(v) && Abs(v) == Abs(w)
    ensures s in v.strings && !v.strings[s].rep.Shared?
  {
    CStrRefines(w, s);
    Arrives(w, OpCStr(s), v);
  }

  lemma SmallOrTerminated(w: World, s: ImmutableString)
    requires Safe(w) && s in w.strings && !w.strings[s].rep.Shared?
    ensures if w.strings[s].rep.Small? then Abs(w).strings[s] == w.strings[s].rep.chars
            else TerminatedText(w.heap, w.strings[s].rep.data, Abs(w).strings[s])
  {
    assert StringOk(w.heap, w.strings[s].rep);
  }

  lemma SliceIsOwned(w: World, s: ImmutableString, src: ImmutableString, str: Str, whole: seq<byte>, pos: nat, n: nat)
    requires CanSlice(w, str, whole, pos, n) && n > MAX_SMALL_SIZE && |whole| - n > MAX_SHARED_DIFFERENCE
    ensures SliceInto(w, s, src, str, whole, pos, n) == InitBytes(w, s, whole[pos..pos + n], 0)
  {}

  lemma SubstrIsSlice(w: World, s: ImmutableString, src: ImmutableString, str: Str, whole: seq<byte>,
                      pos: u64, count: u64, n: u64, v: World)
    requires Safe(w) && src in w.strings && s !in w.strings && Fits(w, |Abs(w).strings[src]| + 1)
    requires str == w.strings[src] && whole == Abs(w).strings[src]
    requires CanSubstr(|whole|, pos, count) && n == SubstrCount(|whole|, pos, count) && CanSlice(w, str, whole, pos, n)
    requires v == SliceInto(w, s, src, str, whole, pos, n)
    ensures Safe(v) && Outcome(w, OpSubstr(s, src, pos, count)) == Some(v)
  {
    Arrives(w, OpSubstr(s, src, pos, count), v);
  }

  /** Dropping a string before replacing it changes only the heap. */
  lemma DroppingFirst(w: World, dst: ImmutableString, src: ImmutableString, a: Str, b: Str)
    requires Safe(w) && dst in w.strings && src in w.strings && dst != src
    ensures PutString(PutString(DropString(w, dst), src, a), dst, b)
            == PutString(PutString(w, src, a), dst, b).(heap := DropString(w, dst).heap)
  {
    assert (w.strings - {dst})[src := a][dst := b] == w.strings[src := a][dst := b];
  }
}

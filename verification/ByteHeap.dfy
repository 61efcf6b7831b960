/**
  The collector's heap as the string code uses it: byte-addressed blocks that are allocated afresh, written, and
  freed explicitly. Addresses are never handed out twice.
 */
module ByteHeap {

  import opened Words

  datatype Heap = Heap(bytes: map<nat, byte>, blocks: map<nat, nat>, next: nat)

  predicate Within(a: nat, p: nat, n: nat) {
    p <= a < p + n
  }

  /** Every address of the range belongs to a block that was not freed. */
  predicate Live(h: Heap, p: nat, n: nat) {
    forall a :: p <= a < p + n ==> a in h.bytes
  }

  ghost predicate WellFormed(h: Heap) {
    && 0 < h.next <= TWO_64
    && (forall a :: a in h.bytes ==> 0 < a < h.next)
  }

  function Read(h: Heap, p: nat, n: nat): (s: seq<byte>)
    requires Live(h, p, n)
    ensures |s| == n && forall i :: 0 <= i < n ==> s[i] == h.bytes[p + i]
  {
    seq(n, i requires 0 <= i < n => h.bytes[p + i])
  }

  /** A fresh block that holds `data`. */
  function Alloc(h: Heap, data: seq<byte>): Heap {
    Heap(h.bytes + (map a | h.next <= a < h.next + |data| && Within(a, h.next, |data|) :: data[a - h.next]),
         h.blocks[h.next := |data|],
         h.next + |data|)
  }

  function Free(h: Heap, p: nat): Heap
    requires p in h.blocks
  {
    Heap(h.bytes - (set a | p <= a < p + h.blocks[p] && Within(a, p, h.blocks[p])), h.blocks - {p}, h.next)
  }

  /** `memcpy` into a block, byte by byte. */
  function Write(h: Heap, p: nat, data: seq<byte>): Heap
    decreases |data|
  {
    if data == [] then h else Write(h.(bytes := h.bytes[p := data[0]]), p + 1, data[1..])
  }

  lemma AllocReads(h: Heap, data: seq<byte>)
    requires WellFormed(h) && h.next + |data| <= TWO_64
    ensures WellFormed(Alloc(h, data))
    ensures Live(Alloc(h, data), h.next, |data|) && Read(Alloc(h, data), h.next, |data|) == data
  {}

  /** Allocation makes the addresses behind all earlier ones live; freeing takes away those of the block. */
  lemma LiveAddresses(h: Heap, data: seq<byte>, p: nat, a: nat)
    requires p in h.blocks
    ensures a in Alloc(h, data).bytes <==> a in h.bytes || h.next <= a < h.next + |data|
    ensures a in Free(h, p).bytes <==> a in h.bytes && !(p <= a < p + h.blocks[p])
    ensures Alloc(h, data).next == h.next + |data| && Free(h, p).next == h.next
  {}

  /** Ranges that were live stay live and keep their bytes. */
  lemma AllocKeeps(h: Heap, data: seq<byte>, p: nat, n: nat)
    requires WellFormed(h) && Live(h, p, n)
    ensures Live(Alloc(h, data), p, n) && Read(Alloc(h, data), p, n) == Read(h, p, n)
  {}

  lemma FreeKeeps(h: Heap, b: nat, p: nat, n: nat)
    requires b in h.blocks && Live(h, p, n)
    requires p + n <= b || b + h.blocks[b] <= p
    ensures Live(Free(h, b), p, n) && Read(Free(h, b), p, n) == Read(h, p, n)
  {}

  /** The heaps have the same blocks and differ at most in the bytes of the range. */
  ghost predicate SameOutside(h: Heap, g: Heap, b: nat, m: nat) {
    && g.blocks == h.blocks && g.next == h.next && g.bytes.Keys == h.bytes.Keys
    && forall a :: a in h.bytes && !Within(a, b, m) ==> g.bytes[a] == h.bytes[a]
  }

  lemma {:induction false} WriteIsLocal(h: Heap, b: nat, data: seq<byte>)
    requires Live(h, b, |data|)
    ensures SameOutside(h, Write(h, b, data), b, |data|)
    ensures Live(Write(h, b, data), b, |data|) && Read(Write(h, b, data), b, |data|) == data
    decreases |data|
  {
    if data != [] {
      var g := h.(bytes := h.bytes[b := data[0]]);
      WriteIsLocal(g, b + 1, data[1..]);
      var f := Write(h, b, data);
      assert f.bytes.Keys == h.bytes.Keys;
      assert !Within(b, b + 1, |data| - 1) && f.bytes[b] == g.bytes[b];
      forall i | 0 <= i < |data| ensures f.bytes[b + i] == data[i] {
        assert i > 0 ==> Read(f, b + 1, |data| - 1)[i - 1] == data[1..][i - 1];
      }
      forall a | a in h.bytes && !Within(a, b, |data|) ensures f.bytes[a] == h.bytes[a] {
        assert !Within(a, b + 1, |data| - 1);
      }
    }
  }

  lemma SameOutsideKeeps(h: Heap, g: Heap, b: nat, m: nat, p: nat, n: nat)
    requires SameOutside(h, g, b, m) && Live(h, p, n)
    requires p + n <= b || b + m <= p
    ensures Live(g, p, n) && Read(g, p, n) == Read(h, p, n)
  {}

  lemma ReadSlice(h: Heap, p: nat, n: nat, i: nat, m: nat)
    requires Live(h, p, n) && i + m <= n
    ensures Live(h, p + i, m) && Read(h, p + i, m) == Read(h, p, n)[i..i + m]
  {
    forall a | p + i <= a < p + i + m ensures a in h.bytes {}
  }

  lemma ReadConcat(h: Heap, p: nat, m: nat, n: nat)
    requires Live(h, p, m) && Live(h, p + m, n)
    ensures Live(h, p, m + n) && Read(h, p, m + n) == Read(h, p, m) + Read(h, p + m, n)
  {
    forall a | p <= a < p + m + n ensures a in h.bytes {}
  }
}

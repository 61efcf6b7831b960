/**
  The 24 bytes of `immutable_string`'s storage union, little-endian, and the three states they encode.

  The top two bits of the last byte are the category. A small string keeps its characters in place and its
  remaining capacity in that byte; a large one keeps a pointer and a size in the first two words.
 */
module StringLayout {

  import opened Words

  const LAST_CHAR_INDEX := 23
  const MAX_SMALL_SIZE := 23
  const MAX_SHARED_DIFFERENCE := 512

  datatype Category = SmallCategory | LargeShared | LargeOwned | NoCategory

  /** What a string's storage says. Pointers are addresses of the byte heap. */
  datatype Rep =
    | Small(chars: seq<byte>)
    | Owned(data: u64, size: u64)
    | Shared(data: u64, size: u64)

  type storage = s: seq<byte> | |s| == 24 witness seq(24, _ => 0)

  function CategoryBits(c: Category): byte {
    match c
    case SmallCategory => 0
    case LargeShared => 0x80
    case LargeOwned => 0xC0
    case NoCategory => 0x40
  }

  /** `bytes[last_char_index] & 0b11000000` */
  function GetCategory(s: storage): (c: Category)
    ensures CategoryBits(c) == s[LAST_CHAR_INDEX] / 64 * 64
  {
    match s[LAST_CHAR_INDEX] / 64
    case 0 => SmallCategory
    case 1 => NoCategory
    case 2 => LargeShared
    case _ => LargeOwned
  }

  function WordBytes(x: nat, n: nat): (bs: seq<byte>)
    ensures |bs| == n
  {
    if n == 0 then [] else [x % 256] + WordBytes(x / 256, n - 1)
  }

  function WordValue(bs: seq<byte>): nat {
    if bs == [] then 0 else bs[0] + 256 * WordValue(bs[1..])
  }

  function Pow256(n: nat): (r: nat)
    ensures r > 0
  {
    if n == 0 then 1 else 256 * Pow256(n - 1)
  }

  lemma {:induction false} WordRoundTrip(x: nat, n: nat)
    requires x < Pow256(n)
    ensures WordValue(WordBytes(x, n)) == x
  {
    if n > 0 {
      assert WordBytes(x, n)[1..] == WordBytes(x / 256, n - 1);
      WordRoundTrip(x / 256, n - 1);
    }
  }

  lemma {:induction false} WordValueBound(bs: seq<byte>)
    ensures WordValue(bs) < Pow256(|bs|)
  {
    if bs != [] {
      WordValueBound(bs[1..]);
    }
  }

  lemma Pow256Of8()
    ensures Pow256(8) == TWO_64
  {
    assert Pow256(4) == 0x1_0000_0000;
    assert Pow256(8) == 256 * 256 * 256 * 256 * Pow256(4);
  }

  function LargeData(s: storage): u64 {
    WordValueBound(s[0..8]);
    Pow256Of8();
    WordValue(s[0..8])
  }

  function LargeSize(s: storage): u64 {
    WordValueBound(s[8..16]);
    Pow256Of8();
    WordValue(s[8..16])
  }

  /** Reads the union back, by its category. */
  function Decode(s: storage): Rep
    requires WellTagged(s)
  {
    match GetCategory(s)
    case SmallCategory => Small(s[..MAX_SMALL_SIZE - s[LAST_CHAR_INDEX]])
    case LargeShared => Shared(LargeData(s), LargeSize(s))
    case _ => Owned(LargeData(s), LargeSize(s))
  }

  predicate WellTagged(s: storage) {
    GetCategory(s) != NoCategory && (GetCategory(s).SmallCategory? ==> s[LAST_CHAR_INDEX] <= MAX_SMALL_SIZE)
  }

  // ---------------------------------------------------------------------------------------------
  // Writing the union
  // ---------------------------------------------------------------------------------------------

  /** The terminator first, then the remaining capacity: at full size both are the same zero byte. */
  function SetSmallSize(s: storage, n: nat): storage
    requires n <= MAX_SMALL_SIZE
  {
    s[n := 0][LAST_CHAR_INDEX := MAX_SMALL_SIZE - n]
  }

  function InitSmall(s: storage, chars: seq<byte>): storage
    requires |chars| <= MAX_SMALL_SIZE
  {
    SetSmallSize(chars + s[|chars|..], |chars|)
  }

  /** Overwrites the third word; only its top byte is ever nonzero. */
  function SetCategory(s: storage, c: Category): storage {
    s[..16] + [0, 0, 0, 0, 0, 0, 0, CategoryBits(c)]
  }

  function InitLarge(data: u64, size: u64, c: Category): storage {
    SetCategory(WordBytes(data, 8) + WordBytes(size, 8) + WordBytes(0, 8), c)
  }

  /** What was stored small reads back, terminated, whatever bytes were there before. */
  lemma InitSmallDecodes(s: storage, chars: seq<byte>)
    requires |chars| <= MAX_SMALL_SIZE
    ensures WellTagged(InitSmall(s, chars)) && Decode(InitSmall(s, chars)) == Small(chars)
    ensures InitSmall(s, chars)[|chars|] == 0
  {
    var t := InitSmall(s, chars);
    assert t[LAST_CHAR_INDEX] == MAX_SMALL_SIZE - |chars|;
    assert t[..|chars|] == chars;
  }

  lemma InitLargeDecodes(data: u64, size: u64)
    ensures WellTagged(InitLarge(data, size, LargeShared)) && WellTagged(InitLarge(data, size, LargeOwned))
    ensures Decode(InitLarge(data, size, LargeShared)) == Shared(data, size)
    ensures Decode(InitLarge(data, size, LargeOwned)) == Owned(data, size)
  {
    Pow256Of8();
    WordRoundTrip(data, 8);
    WordRoundTrip(size, 8);
    var words := WordBytes(data, 8) + WordBytes(size, 8) + WordBytes(0, 8);
    SetCategoryKeepsWords(words, LargeShared);
    SetCategoryKeepsWords(words, LargeOwned);
    assert words[0..8] == WordBytes(data, 8);
    assert words[8..16] == WordBytes(size, 8);
  }

  /** Little-endian: the `i`-th byte of a word has the digit for 256^i. */
  lemma {:induction false} WordByteAt(x: nat, n: nat, i: nat)
    requires i < n
    ensures WordBytes(x, n)[i] == x / Pow256(i) % 256
  {
    if i > 0 {
      WordByteAt(x / 256, n - 1, i - 1);
      DivideTwice(x, Pow256(i - 1));
    }
  }

  lemma DivideTwice(x: nat, p: nat)
    requires p > 0
    ensures x / 256 / p == x / (256 * p)
  {
    var q := x / 256 / p;
    var r := x / 256 - q * p;
    var s := x - 256 * (x / 256);
    assert x == q * (256 * p) + (256 * r + s) && 256 * r + s < 256 * p;
    DivModUnique(q, 256 * r + s, 256 * p);
  }

  /** Byte by byte: pointer, size, and the category in the top bits of the last byte. */
  lemma LargeLayout(data: u64, size: u64, i: nat)
    requires i < 8
    ensures InitLarge(data, size, LargeOwned)[i] == InitLarge(data, size, LargeShared)[i] == data / Pow256(i) % 256
    ensures InitLarge(data, size, LargeOwned)[8 + i] == InitLarge(data, size, LargeShared)[8 + i]
            == size / Pow256(i) % 256
    ensures InitLarge(data, size, LargeOwned)[23] == 0xC0 && InitLarge(data, size, LargeShared)[23] == 0x80
  {
    WordByteAt(data, 8, i);
    WordByteAt(size, 8, i);
  }

  /** Byte by byte: the characters, a zero, and the remaining capacity in the last byte. */
  lemma SmallLayout(s: storage, chars: seq<byte>)
    requires |chars| <= 23
    ensures InitSmall(s, chars)[..|chars|] == chars && InitSmall(s, chars)[|chars|] == 0
    ensures InitSmall(s, chars)[23] == 23 - |chars|
  {
    InitSmallDecodes(s, chars);
    var t := InitSmall(s, chars);
    assert t[..|chars|] == chars;
  }

  lemma SetCategoryKeepsWords(s: storage, c: Category)
    ensures SetCategory(s, c)[0..8] == s[0..8] && SetCategory(s, c)[8..16] == s[8..16]
    ensures GetCategory(SetCategory(s, c)) == c
  {}

  function SharedRep(rep: Rep): Rep {
    if rep.Small? then rep else Shared(rep.data, rep.size)
  }

  /** Flipping a large string to shared keeps its pointer and size. */
  lemma SetSharedDecodes(s: storage)
    requires WellTagged(s) && !Decode(s).Small?
    ensures WellTagged(SetCategory(s, LargeShared))
    ensures Decode(SetCategory(s, LargeShared)) == Shared(Decode(s).data, Decode(s).size)
  {
    SetCategoryKeepsWords(s, LargeShared);
  }

  /** The storage carries a category, and a small string is followed by a zero byte. */
  predicate Tagged(s: storage) {
    WellTagged(s) && (Decode(s).Small? ==> s[|Decode(s).chars|] == 0)
  }

  type tagged = s: storage | Tagged(s) witness EMPTY

  const EMPTY: storage := [0, 0, 0, 0, 0, 0, 0, 0, 0, 0, 0, 0, 0, 0, 0, 0, 0, 0, 0, 0, 0, 0, 0, 23]
}

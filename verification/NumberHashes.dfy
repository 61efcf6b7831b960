/**
  The hashes of numbers, and how far `equal` numbers hash equal.
 */
module NumberHashes {

  import opened Words
  import Hash
  import opened Boxing
  import opened Numbers
  import opened XorDigits

  /** `hash::real`: the two halves of the bits, the upper one shifted onto the lower. */
  function HashReal(bits: u64): u32 {
    Xor32(bits % TWO_32, bits / TWO_32)
  }

  /** Given the upper half of the bits, the hash of a real gives the lower half back. */
  lemma HashRealKeepsLowerHalf(bits: u64)
    ensures Xor32(HashReal(bits), bits / TWO_32) == bits % TWO_32
  {
    XorCancels(bits % TWO_32, bits / TWO_32);
  }

  /** `hash::integer` of a signed integer, whose bits are taken as an unsigned one. */
  function HashInteger(n: i64): u32 {
    Hash.IntegerU64(Wrap64(n))
  }

  function HashObject(o: Object): u32
    requires o != NilObject
  {
    if HoldsReal(o) then HashReal(o.bits) else HashInteger(IntegerIn(o))
  }

  ghost function HashWord(h: memory, w: u64): u32
    requires IsNumber(h, w)
  {
    if IsSmallInt(w) then HashObject(SmallIntegerObject(AsInteger(w)))
    else if IsSmallReal(w) then HashObject(SmallRealObject(w))
    else HashObject(h[AsPointer(w)])
  }

  /** The bits of a real, in the word or in an object. */
  ghost function BitsOf(h: memory, w: u64): u64
    requires IsNumber(h, w) && NumberOf(h, w).Real?
  {
    if IsSmallReal(w) then w else h[AsPointer(w)].bits
  }

  // ---------------------------------------------------------------------------------------------
  // Which equal numbers hash equal
  // ---------------------------------------------------------------------------------------------

  lemma HashesOfZeros()
    ensures HashReal(0) == 0 && HashReal(MINUS_ZERO) == 0x8000_0000 && HashInteger(0) == 0
  {
    XorZero(0);
    XorCommutes(0, 0x8000_0000);
    XorZero(0x8000_0000);
  }

  /** Equal numbers of one kind hash equal, wherever they are kept, unless they are zeros of different sign. */
  lemma SameKindHashesEqualIff(h: memory, a: u64, b: u64)
    requires IsNumber(h, a) && IsNumber(h, b) && EqualWords(h, a, b)
    requires NumberOf(h, a).Integer? == NumberOf(h, b).Integer?
    ensures HashWord(h, a) == HashWord(h, b)
            <==> (NumberOf(h, a).Real? ==> BitsOf(h, a) == BitsOf(h, b))
  {
    EqualIsNumeric(h, a, b);
    ClassesAreDisjoint(a);
    ClassesAreDisjoint(b);
    if NumberOf(h, a).Real? {
      EqualDoublesIff(BitsOf(h, a), BitsOf(h, b));
      HashesOfZeros();
    }
  }

  /** Zero hashes like the real 0.0, but not like -0.0, which equals it as well. */
  lemma ZeroHashesEqualIff(h: memory, bits: u64)
    requires IsSmallReal(bits) && EqualWords(h, TagInteger(0), bits)
    ensures HashWord(h, TagInteger(0)) == HashWord(h, bits) <==> bits == 0
  {
    IntegersAreKept(0, 0);
    ClassesAreDisjoint(TagInteger(0));
    DecodeOfZero();
    EqualDoublesIff(0, bits);
    HashesOfZeros();
  }

  lemma DecodeOfZero()
    ensures ToDouble(0) == Decode(0)
  {
    SmallIntegersAreExact(0);
  }

  // ---------------------------------------------------------------------------------------------
  // Which integers hash like the reals they equal
  // ---------------------------------------------------------------------------------------------

  lemma IntegerMeetsReal(h: memory, n: i32, bits: u64)
    requires IsSmallReal(bits)
    ensures IsNumber(h, TagInteger(n)) && IsNumber(h, bits)
    ensures NumberOf(h, TagInteger(n)) == Integer(n) && NumberOf(h, bits) == Real(Decode(bits))
    ensures EqualWords(h, TagInteger(n), bits) <==> EqualDouble(ToDouble(n), Decode(bits))
    ensures HashWord(h, TagInteger(n)) == HashInteger(n) && HashWord(h, bits) == HashReal(bits)
  {
    IntegersAreKept(n, 0);
    ClassesAreDisjoint(bits);
  }

  /** The upper half of the 64 bits of a small integer repeats its sign. */
  function UpperHalf(n: i32): u32 {
    if n < 0 then 0xFFFF_FFFF else 0
  }

  lemma HalvesOf(n: i32)
    ensures Wrap64(n) / TWO_32 == UpperHalf(n)
    ensures Wrap64(n) % TWO_32 == if n < 0 then n + TWO_32 else n
    ensures Wrap64(n) == 0 <==> n == 0
  {}

  /** For each sign, one lower half hashes like a given real; the integer must be the one with it. */
  lemma MixedHashesEqualIff(h: memory, n: i32, bits: u64)
    requires IsSmallReal(bits) && n != 0
    requires EqualWords(h, TagInteger(n), bits)
    ensures HashWord(h, TagInteger(n)) == HashWord(h, bits)
            <==> (if n < 0 then n + TWO_32 else n) == Hash.LowerHalfFor(HashReal(bits), UpperHalf(n))
  {
    IntegerMeetsReal(h, n, bits);
    HalvesOf(n);
    Hash.IntegerU64HitsIff(Wrap64(n), HashReal(bits));
  }

  /** Of two integers of one sign that equal reals of one hash, at most one hashes like its real. */
  lemma AtMostOneHashesLikeItsReal(n: i32, bits: u64, m: i32, other: u64)
    requires EqualDouble(ToDouble(n), Decode(bits)) && EqualDouble(ToDouble(m), Decode(other))
    requires HashReal(bits) == HashReal(other) && n != m && n != 0 && m != 0 && (n < 0 <==> m < 0)
    ensures HashInteger(n) != HashReal(bits) || HashInteger(m) != HashReal(other)
  {
    HalvesOf(n);
    HalvesOf(m);
    Hash.IntegerU64HitsIff(Wrap64(n), HashReal(bits));
    Hash.IntegerU64HitsIff(Wrap64(m), HashReal(bits));
  }

  // ---------------------------------------------------------------------------------------------
  // 1 and 1.0
  // ---------------------------------------------------------------------------------------------

  const ONE: u64 := 0x3FF0_0000_0000_0000

  lemma DecodeOfOne()
    ensures Decode(ONE) == ToDouble(1)
  {
    SmallIntegersAreExact(1);
    DecodeNormal(ONE, 1023);
    SmallPowers();
    Pow2Sum(52, 1022);
  }

  lemma SmallPowers()
    ensures Pow2(13) == 0x2000 && Pow2(15) == 0x8000 && Pow2(17) == 0x2_0000 && Pow2(19) == 0x8_0000
    ensures Pow2(52) == TWO_52
  {
    assert Pow2(4) == 16;
    Pow2Sum(4, 4);
    Pow2Sum(8, 5);
    Pow2Sum(13, 2);
    Pow2Sum(15, 2);
    Pow2Sum(17, 2);
    Pow2Sum(13, 13);
    Pow2Sum(26, 26);
  }

  lemma XorZeroLeft(a: nat)
    ensures Xor(0, a) == a
  {
    XorCommutes(0, a);
    XorZero(a);
  }

  /** A word by its halves. Constants are worked out in this form. */
  ghost predicate Is(x: nat, high: nat, low: nat) {
    x / 0x1_0000 == high && x % 0x1_0000 == low
  }

  lemma MixK1OfOne()
    ensures Is(Hash.MixK1(1), 0xC353, 0x9A5D)
  {
    SmallPowers();
    assert Times(0xCC9E_2D51, 1) == 0xCC9E_2D51;
    assert RotateLeft(0xCC9E_2D51, 15) == 0x16A8_E64F;
  }

  /** What `mix_h1` does when one of its arguments is zero. */
  function MixedH1(h: u32): u32 {
    Wrap32(Times(5, RotateLeft(h, 13)) + 0xE654_6B64)
  }

  lemma MixH1Of(h: u32)
    ensures Hash.MixH1(0, h) == MixedH1(h) && Hash.MixH1(h, 0) == MixedH1(h)
  {
    XorZeroLeft(h);
    XorZero(h);
    var steps := [Hash.Rotl(13), Hash.Mul(5)];
    Hash.RunAppends(steps, Hash.Add(0xE654_6B64), h);
    assert Hash.MIX_H1 == steps + [Hash.Add(0xE654_6B64)];
    Hash.RunAppends([Hash.Rotl(13)], Hash.Mul(5), h);
    assert steps == [Hash.Rotl(13)] + [Hash.Mul(5)];
    Hash.RunAppends([], Hash.Rotl(13), h);
    assert [Hash.Rotl(13)] == [] + [Hash.Rotl(13)];
  }

  lemma Rotate13(h: u32)
    ensures RotateLeft(h, 13) == h % 0x8_0000 * 0x2000 + h / 0x8_0000
  {
    SmallPowers();
  }

  /** With the upper 13 and the lower 19 bits of the word. */
  lemma MixedH1Of(h: u32, q: nat, r: nat)
    requires h == q * 0x8_0000 + r && r < 0x8_0000
    ensures MixedH1(h) == Wrap32(5 * (r * 0x2000 + q) + 0xE654_6B64)
  {
    Rotate13(h);
    assert h / 0x8_0000 == q && h % 0x8_0000 == r;
    WrapSum(5 * RotateLeft(h, 13), 0xE654_6B64);
  }

  lemma WrapSum(x: nat, c: u32)
    ensures Wrap32(Wrap32(x) + c) == Wrap32(x + c)
  {}

  lemma MixedOnce(h: u32)
    requires Is(h, 0xC353, 0x9A5D)
    ensures Is(MixedH1(h), 0x26CF, 0x0576)
  {
    MixedH1Of(h, 0x186A, 0x3_9A5D);
  }

  lemma MixedTwice(h: u32)
    requires Is(h, 0x26CF, 0x0576)
    ensures Is(MixedH1(h), 0x49BE, 0x43A1)
  {
    MixedH1Of(h, 0x04D9, 0x7_0576);
  }

  function FmixOf(h: u32): u32 {
    var a := Times(0x85EB_CA6B, XorShift(h, 16));
    var b := Times(0xC2B2_AE35, XorShift(a, 13));
    XorShift(b, 16)
  }

  lemma FmixUnfolds(h: u32)
    ensures Hash.Fmix(h) == FmixOf(h)
  {
    var s := Hash.FMIX;
    Hash.RunAppends(s[..4], s[4], h);
    Hash.RunAppends(s[..3], s[3], h);
    Hash.RunAppends(s[..2], s[2], h);
    Hash.RunAppends(s[..1], s[1], h);
    Hash.RunAppends(s[..0], s[0], h);
    assert s == s[..4] + [s[4]] && s[..4] == s[..3] + [s[3]] && s[..3] == s[..2] + [s[2]];
    assert s[..2] == s[..1] + [s[1]] && s[..1] == s[..0] + [s[0]];
  }

  lemma Shr4(x: nat)
    ensures Shr(x, 4) == x / 16
  {
    assert Shr(x / 2, 3) == Shr(x / 4, 2) == Shr(x / 8, 1) == x / 16;
  }

  lemma ShrHalf(x: nat)
    ensures Shr(x, 16) == x / 0x1_0000
  {
    Shr4(x / 4096);
    Shr12(x);
    ShrShr(x, 12, 4);
  }

  lemma Shr12(x: nat)
    ensures Shr(x, 12) == x / 0x1000
  {
    Shr4(x);
    Shr4(x / 16);
    Shr4(x / 256);
    ShrShr(x, 4, 4);
    ShrShr(x, 8, 4);
  }

  lemma Shr13(x: nat)
    ensures Shr(x, 13) == x / 0x2000
  {
    Shr12(x);
    ShrShr(x, 12, 1);
    assert Shr(x / 4096, 1) == x / 8192;
  }

  lemma WithLength(h: u32)
    requires Is(h, 0x49BE, 0x43A1)
    ensures Is(Xor32(h, 8), 0x49BE, 0x43A9)
  {
    XorLastFive(h, 8, h / 0x10_0000, 14, 4, 3, 10, 1, 0, 0, 0, 0, 8);
  }

  lemma FirstShift(h: u32)
    requires Is(h, 0x49BE, 0x43A9)
    ensures Is(XorShift(h, 16), 0x49BE, 0x0A17)
  {
    ShrHalf(h);
    XorLastFive(h, h / 0x1_0000, h / 0x10_0000, 14, 4, 3, 10, 9, 0, 4, 9, 11, 14);
  }

  lemma SecondShift(h: u32)
    requires Is(h, 0xFC81, 0x5D9D)
    ensures Is(XorShift(h, 13), 0xFC86, 0xB997)
  {
    Shr13(h);
    XorLastFive(h, h / 0x2000, h / 0x10_0000, 1, 5, 13, 9, 13, 7, 14, 4, 0, 10);
  }

  lemma LastShift(h: u32)
    ensures XorShift(h, 16) / 0x1_0000 == h / 0x1_0000
  {
    ShrHalf(h);
    ShrHalf(h / 0x1_0000);
    ShrHalf(XorShift(h, 16));
    ShrXor(h, h / 0x1_0000, 16);
    XorZero(h / 0x1_0000);
  }

  lemma FirstProduct(h: u32)
    requires Is(h, 0x49BE, 0x0A17)
    ensures Is(Times(0x85EB_CA6B, h), 0xFC81, 0x5D9D)
  {
    assert h == 0x49BE * 0x1_0000 + 0x0A17;
    Remainder(0x85EB_CA6B * h, 0x2693_A6FF, 0xFC81_5D9D);
  }

  lemma SecondProduct(h: u32)
    requires Is(h, 0xFC86, 0xB997)
    ensures Is(Times(0xC2B2_AE35, h), 0x5307, 0x0E43)
  {
    assert h == 0xFC86 * 0x1_0000 + 0xB997;
    Remainder(0xC2B2_AE35 * h, 0xC00E_5A29, 0x5307_0E43);
  }

  lemma Remainder(x: nat, q: nat, r: u32)
    requires x == q * TWO_32 + r
    ensures Wrap32(x) == r
  {}

  lemma FmixOfOne(h: u32)
    requires Is(h, 0x49BE, 0x43A1)
    ensures Hash.FmixLength(h, 8) / 0x1_0000 == 0x5307
  {
    var g := Xor32(h, 8);
    WithLength(h);
    FmixUnfolds(g);
    FirstShift(g);
    FirstProduct(XorShift(g, 16));
    var a := Times(0x85EB_CA6B, XorShift(g, 16));
    SecondShift(a);
    SecondProduct(XorShift(a, 13));
    LastShift(Times(0xC2B2_AE35, XorShift(a, 13)));
  }

  lemma HashOfOne()
    ensures HashInteger(1) / 0x1_0000 == 0x5307
  {
    var k := Hash.MixK1(1);
    MixK1OfOne();
    Hash.MixK1OfZero();
    MixH1Of(k);
    MixedOnce(k);
    MixH1Of(MixedH1(k));
    MixedTwice(MixedH1(k));
    FmixOfOne(MixedH1(MixedH1(k)));
  }

  /** The integer 1 equals the real 1.0 and does not hash like it. */
  lemma OneHashesUnlikeItsReal(h: memory)
    ensures IsNumber(h, TagInteger(1)) && IsNumber(h, ONE) && EqualWords(h, TagInteger(1), ONE)
    ensures HashWord(h, TagInteger(1)) != HashWord(h, ONE)
  {
    HashOfOne();
    DecodeOfOne();
    HashOfRealOne();
    IntegerMeetsReal(h, 1, ONE);
  }

  lemma HashOfRealOne()
    ensures HashReal(ONE) == 0x3FF0_0000
  {
    XorZeroLeft(0x3FF0_0000);
  }
}

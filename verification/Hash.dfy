/**
  The 32-bit hash mixers of jank (a Murmur3 variant) and the two collection folds built on them.

  The mixers are given with explicit inverses; everything the folds promise follows from those.
 */
module Hash {

  import opened Words
  import opened Folds

  const SEED: u32 := 0

  // ---------------------------------------------------------------------------------------------
  // Mixers
  // ---------------------------------------------------------------------------------------------

  /** One statement of a mixer, updating the word in place. */
  datatype Step =
    | XorShr(n: nat)        // h ^= h >> n
    | XorShrTwice(n: nat)   // h ^= (h >> n) ^ (h >> 2n), the inverse of XorShr(n) for n >= 11
    | Mul(c: u32)           // h *= c
    | Rotl(r: rotation)     // h = rotate_left(h, r)
    | Add(c: u32)           // h += c

  type rotation = r: int | 0 < r < 32 witness 1

  function Apply(s: Step, x: u32): u32 {
    match s
    case XorShr(n) => XorShift(x, n)
    case XorShrTwice(n) => Xor32(XorShift(x, n), (ShrBound(x, n + n); Shr(x, n + n)))
    case Mul(c) => Times(c, x)
    case Rotl(r) => RotateLeft(x, r)
    case Add(c) => Wrap32(x + c)
  }

  function Run(steps: seq<Step>, x: u32): u32 {
    if steps == [] then x else Run(steps[1..], Apply(steps[0], x))
  }

  const FMIX: seq<Step> := [XorShr(16), Mul(0x85eb_ca6b), XorShr(13), Mul(0xc2b2_ae35), XorShr(16)]
  const MIX_K1: seq<Step> := [Mul(0xcc9e_2d51), Rotl(15), Mul(0x1b87_3593)]
  const MIX_H1: seq<Step> := [Rotl(13), Mul(5), Add(0xe654_6b64)]

  function Fmix(h: u32): u32 {
    Run(FMIX, h)
  }

  /** The two-argument overload: the length is mixed in first. */
  function FmixLength(h1: u32, length: u32): u32 {
    Fmix(Xor32(h1, length))
  }

  function MixK1(k1: u32): u32 {
    Run(MIX_K1, k1)
  }

  function MixH1(h1: u32, k1: u32): u32 {
    Run(MIX_H1, Xor32(h1, k1))
  }

  function MixCollectionHash(hash: u32, length: u32): u32 {
    FmixLength(MixH1(SEED, MixK1(hash)), length)
  }

  function IntegerU32(input: u32): u32 {
    if input == 0 then 0 else FmixLength(MixH1(SEED, MixK1(input)), 4)
  }

  function IntegerU64(input: u64): u32 {
    if input == 0 then
      0
    else
      var low, high := input % TWO_32, input / TWO_32;
      FmixLength(MixH1(MixH1(SEED, MixK1(low)), MixK1(high)), 8)
  }

  // ---------------------------------------------------------------------------------------------
  // Every step can be undone, so every mixer can
  // ---------------------------------------------------------------------------------------------

  /** The multipliers are the inverses modulo 2^32 of the odd constants above. */
  const UNFMIX: seq<Step> := [XorShr(16), Mul(0x7ed1_b41d), XorShrTwice(13), Mul(0xa5cb_9243), XorShr(16)]
  const UNMIX_K1: seq<Step> := [Mul(0x56ed_309b), Rotl(17), Mul(0xdee1_3bb1)]
  const UNMIX_H1: seq<Step> := [Add(0x19ab_949c), Mul(0xcccc_cccd), Rotl(19)]

  ghost predicate Undoes(s: Step, t: Step) {
    && (forall x :: Apply(t, Apply(s, x)) == x)
    && (forall x :: Apply(s, Apply(t, x)) == x)
  }

  lemma XorShrUndoesItself(n: nat)
    requires 16 <= n
    ensures Undoes(XorShr(n), XorShr(n))
  {
    forall x: u32 ensures XorShift(XorShift(x, n), n) == x {
      XorShiftIsInvolution(x, n);
    }
  }

  lemma XorShrTwiceUndoesXorShr(n: nat)
    requires 11 <= n
    ensures Undoes(XorShr(n), XorShrTwice(n)) && Undoes(XorShrTwice(n), XorShr(n))
  {
    forall x: u32
      ensures Apply(XorShrTwice(n), Apply(XorShr(n), x)) == x
      ensures Apply(XorShr(n), Apply(XorShrTwice(n), x)) == x
    {
      XorShiftIsInvertible(x, n);
      XorShiftInverseUndone(x, n);
    }
  }

  lemma MulUndoesMul(c: u32, d: u32)
    requires Wrap32(c * d) == 1
    ensures Undoes(Mul(c), Mul(d))
  {
    forall x: u32
      ensures Times(d, Times(c, x)) == x
      ensures Times(c, Times(d, x)) == x
    {
      TimesIsInvertible(c, d, x);
      TimesIsInvertible(d, c, x);
    }
  }

  lemma RotlUndoesRotl(r: rotation)
    ensures Undoes(Rotl(r), Rotl(32 - r))
  {
    var t: rotation := 32 - r;
    forall x: u32
      ensures Apply(Rotl(t), Apply(Rotl(r), x)) == x
      ensures Apply(Rotl(r), Apply(Rotl(t), x)) == x
    {
      RotateLeftIsInvertible(x, r);
      RotateLeftIsInvertible(x, 32 - r);
    }
  }

  lemma AddUndoesAdd(c: u32, d: u32)
    requires Wrap32(c + d) == 0
    ensures Undoes(Add(c), Add(d))
  {
    forall x: u32 ensures Apply(Add(d), Apply(Add(c), x)) == x && Apply(Add(c), Apply(Add(d), x)) == x {
      AddThenAdd(x, c, d);
      AddThenAdd(x, d, c);
    }
  }

  lemma AddThenAdd(x: u32, c: u32, d: u32)
    requires Wrap32(c + d) == 0
    ensures Wrap32(Wrap32(x + c) + d) == x
  {
    assert c + d == 0 || c + d == TWO_32;
    WrapAdd(x, c, d);
  }

  lemma WrapAdd(x: u32, c: u32, d: u32)
    ensures Wrap32(Wrap32(x + c) + d) == Wrap32(x + c + d)
  {}

  /** Undoing the steps of a pipeline in the opposite order undoes the pipeline, and the other way round. */
  lemma {:induction false} RunIsInvertible(steps: seq<Step>, undo: seq<Step>, x: u32)
    requires |steps| == |undo|
    requires forall i :: 0 <= i < |steps| ==> Undoes(steps[i], undo[|steps| - 1 - i])
    ensures Run(undo, Run(steps, x)) == x
  {
    if steps != [] {
      var last := |undo| - 1;
      RunIsInvertible(steps[1..], undo[..last], Apply(steps[0], x));
      RunAppends(undo[..last], undo[last], Run(steps, x));
      assert undo == undo[..last] + [undo[last]];
      assert Undoes(steps[0], undo[last]);
    }
  }

  lemma {:induction false} RunAppends(steps: seq<Step>, s: Step, x: u32)
    ensures Run(steps + [s], x) == Apply(s, Run(steps, x))
  {
    if steps == [] {
      assert [s][1..] == [];
    } else {
      assert (steps + [s])[1..] == steps[1..] + [s];
      RunAppends(steps[1..], s, Apply(steps[0], x));
    }
  }

  lemma FmixIsBijective(h: u32)
    ensures Run(UNFMIX, Fmix(h)) == h
    ensures Fmix(Run(UNFMIX, h)) == h
  {
    XorShrUndoesItself(16);
    MulUndoesMul(0x85eb_ca6b, 0xa5cb_9243);
    MulUndoesMul(0xa5cb_9243, 0x85eb_ca6b);
    XorShrTwiceUndoesXorShr(13);
    MulUndoesMul(0xc2b2_ae35, 0x7ed1_b41d);
    MulUndoesMul(0x7ed1_b41d, 0xc2b2_ae35);
    RunIsInvertible(FMIX, UNFMIX, h);
    RunIsInvertible(UNFMIX, FMIX, h);
  }

  lemma MixK1IsBijective(k: u32)
    ensures Run(UNMIX_K1, MixK1(k)) == k
    ensures MixK1(Run(UNMIX_K1, k)) == k
  {
    MulUndoesMul(0xcc9e_2d51, 0xdee1_3bb1);
    MulUndoesMul(0xdee1_3bb1, 0xcc9e_2d51);
    RotlUndoesRotl(15);
    RotlUndoesRotl(17);
    MulUndoesMul(0x1b87_3593, 0x56ed_309b);
    MulUndoesMul(0x56ed_309b, 0x1b87_3593);
    RunIsInvertible(MIX_K1, UNMIX_K1, k);
    RunIsInvertible(UNMIX_K1, MIX_K1, k);
  }

  lemma MixH1StepsAreBijective(x: u32)
    ensures Run(UNMIX_H1, Run(MIX_H1, x)) == x
    ensures Run(MIX_H1, Run(UNMIX_H1, x)) == x
  {
    RotlUndoesRotl(13);
    RotlUndoesRotl(19);
    MulUndoesMul(5, 0xcccc_cccd);
    MulUndoesMul(0xcccc_cccd, 5);
    AddUndoesAdd(0xe654_6b64, 0x19ab_949c);
    AddUndoesAdd(0x19ab_949c, 0xe654_6b64);
    RunIsInvertible(MIX_H1, UNMIX_H1, x);
    RunIsInvertible(UNMIX_H1, MIX_H1, x);
  }

  /** `MixH1` can be undone in either argument when the other one is known, and is onto in both. */
  lemma MixH1IsBijectiveInEachArgument(h1: u32, k1: u32, v: u32)
    ensures Xor32(Run(UNMIX_H1, MixH1(h1, k1)), k1) == h1
    ensures Xor32(h1, Run(UNMIX_H1, MixH1(h1, k1))) == k1
    ensures MixH1(Xor32(Run(UNMIX_H1, v), k1), k1) == v
    ensures MixH1(h1, Xor32(h1, Run(UNMIX_H1, v))) == v
  {
    MixH1StepsAreBijective(Xor32(h1, k1));
    XorCancels(h1, k1);
    MixH1StepsAreBijective(v);
    XorCancels(Run(UNMIX_H1, v), k1);
    XorCancels(h1, Run(UNMIX_H1, v));
  }

  /** The final mix loses nothing: it is injective in the hash for a fixed length and in the length for a fixed hash. */
  lemma MixCollectionHashIsInjective(h: u32, k: u32, m: u32, n: u32)
    ensures MixCollectionHash(h, n) == MixCollectionHash(k, n) <==> h == k
    ensures MixCollectionHash(h, m) == MixCollectionHash(h, n) <==> m == n
  {
    FmixLengthIsInjective(MixH1(SEED, MixK1(h)), MixH1(SEED, MixK1(k)), n);
    FmixLengthIsInjectiveInLength(MixH1(SEED, MixK1(h)), m, n);
    MixH1IsBijectiveInEachArgument(SEED, MixK1(h), 0);
    MixH1IsBijectiveInEachArgument(SEED, MixK1(k), 0);
    MixK1IsBijective(h);
    MixK1IsBijective(k);
  }

  lemma FmixLengthIsInjective(a: u32, b: u32, n: u32)
    ensures FmixLength(a, n) == FmixLength(b, n) <==> a == b
  {
    FmixIsBijective(Xor32(a, n));
    FmixIsBijective(Xor32(b, n));
    XorCancels(a, n);
    XorCancels(b, n);
  }

  lemma FmixLengthIsInjectiveInLength(a: u32, m: u32, n: u32)
    ensures FmixLength(a, m) == FmixLength(a, n) <==> m == n
  {
    FmixIsBijective(Xor32(a, m));
    FmixIsBijective(Xor32(a, n));
    XorCancels(a, m);
    XorCancels(a, n);
  }

  /** The one nonzero word that mixes to zero, which is also the value reserved for the zero word. */
  function CollidesWithZero(): u32 {
    Run(UNMIX_K1, Xor32(SEED, Run(UNMIX_H1, Xor32(Run(UNFMIX, 0), 4))))
  }

  /**
    `integer` is injective on nonzero words. Over all words it has exactly one collision: the shortcut for
    zero meets the one word that mixes to zero.
   */
  lemma IntegerU32CollidesOnce(x: u32, y: u32)
    ensures CollidesWithZero() != 0
    ensures IntegerU32(x) == IntegerU32(y) <==>
            x == y || (x == 0 && y == CollidesWithZero()) || (x == CollidesWithZero() && y == 0)
  {
    var c := CollidesWithZero();
    CollidesWithZeroMixesToZero();
    MixCollectionHashIsInjective(x, y, 4, 4);
    MixCollectionHashIsInjective(x, c, 4, 4);
    MixCollectionHashIsInjective(y, c, 4, 4);
  }

  /** Every hash is met by exactly one nonzero word, which is given, or by zero alone. */
  lemma IntegerU32HitsIff(x: u32, v: u32)
    requires x != 0
    ensures IntegerU32(x) == v <==>
            x == Run(UNMIX_K1, Xor32(SEED, Run(UNMIX_H1, Xor32(Run(UNFMIX, v), 4))))
  {
    MixCollectionHitsIff(x, 4, v);
  }

  /** The same for the final mix of a collection: its hash is mixed in first, then the length. */
  lemma MixCollectionHitsIff(h: u32, length: u32, v: u32)
    ensures MixCollectionHash(h, length) == v <==>
            h == Run(UNMIX_K1, Xor32(SEED, Run(UNMIX_H1, Xor32(Run(UNFMIX, v), length))))
  {
    FmixHitsIff(MixH1(SEED, MixK1(h)), length, v);
    MixK1HitsIff(h, Xor32(Run(UNFMIX, v), length));
  }

  lemma CollidesWithZeroMixesToZero()
    ensures MixCollectionHash(CollidesWithZero(), 4) == 0
    ensures CollidesWithZero() != 0
  {
    var v := Xor32(Run(UNFMIX, 0), 4);
    var k := Xor32(SEED, Run(UNMIX_H1, v));
    MixK1IsBijective(k);
    MixH1IsBijectiveInEachArgument(SEED, 0, v);
    XorCancels(Run(UNFMIX, 0), 4);
    FmixIsBijective(0);
    if CollidesWithZero() == 0 {
      ZeroDoesNotMixToZero();
    }
  }

  lemma ZeroDoesNotMixToZero()
    ensures MixCollectionHash(0, 4) != 0
  {
    FmixOfZero();
    MixK1OfZero();
    MixH1OfZero();
    var h := MixH1(SEED, MixK1(0));
    XorCancels(h, 4);
    XorCommutes(0, 4);
    XorZero(4);
    assert Xor32(h, 4) != 0;
    FmixIsBijective(Xor32(h, 4));
    FmixIsBijective(0);
  }

  lemma FmixOfZero()
    ensures Fmix(0) == 0
  {
    XorShrOfZero(16);
    XorShrOfZero(13);
    RunKeepsZero(FMIX);
  }

  lemma MixK1OfZero()
    ensures MixK1(0) == 0
  {
    forall s | s in MIX_K1
      ensures Apply(s, 0) == 0
    {
      if s.Rotl? {
        RotlOfZero(s.r);
      } else {
        MulOfZero(s.c);
      }
    }
    RunKeepsZero(MIX_K1);
  }

  lemma MulOfZero(c: u32)
    ensures Apply(Mul(c), 0) == 0
  {}

  lemma RotlOfZero(r: rotation)
    ensures Apply(Rotl(r), 0) == 0
  {}

  lemma MixH1OfZero()
    ensures MixH1(SEED, 0) == 0xe654_6b64
  {
    var steps := [Rotl(13), Mul(5)];
    RunKeepsZero(steps);
    RunAppends(steps, Add(0xe654_6b64), 0);
    assert MIX_H1 == steps + [Add(0xe654_6b64)];
    XorZero(0);
  }

  lemma {:induction false} RunKeepsZero(steps: seq<Step>)
    requires forall s :: s in steps ==> Apply(s, 0) == 0
    ensures Run(steps, 0) == 0
  {
    if steps != [] {
      RunKeepsZero(steps[1..]);
    }
  }

  lemma XorShrOfZero(n: nat)
    ensures Apply(XorShr(n), 0) == 0
  {
    ShrBound(0, n);
  }

  /** Nonzero 64-bit inputs that agree in one half and differ in the other never collide. */
  lemma IntegerU64SeparatesHalves(x: u64, y: u64)
    requires x != 0 && y != 0
    requires x % TWO_32 == y % TWO_32 || x / TWO_32 == y / TWO_32
    ensures IntegerU64(x) == IntegerU64(y) <==> x == y
  {
    assert x == x / TWO_32 * TWO_32 + x % TWO_32 && y == y / TWO_32 * TWO_32 + y % TWO_32;
    MixSeparatesHalves(x % TWO_32, x / TWO_32, y % TWO_32, y / TWO_32);
  }

  lemma MixSeparatesHalves(xl: u32, xh: u32, yl: u32, yh: u32)
    requires xl == yl || xh == yh
    ensures FmixLength(MixH1(MixH1(SEED, MixK1(xl)), MixK1(xh)), 8) == FmixLength(MixH1(MixH1(SEED, MixK1(yl)), MixK1(yh)), 8)
            <==> xl == yl && xh == yh
  {
    var a, b := MixH1(SEED, MixK1(xl)), MixH1(SEED, MixK1(yl));
    FmixLengthIsInjective(MixH1(a, MixK1(xh)), MixH1(b, MixK1(yh)), 8);
    MixIsInjective(SEED, xl, yl);
    if xl == yl {
      MixIsInjective(a, xh, yh);
    } else {
      MixH1IsBijectiveInEachArgument(a, MixK1(xh), 0);
      MixH1IsBijectiveInEachArgument(b, MixK1(yh), 0);
    }
  }

  lemma MixIsInjective(h: u32, k: u32, l: u32)
    ensures MixH1(h, MixK1(k)) == MixH1(h, MixK1(l)) <==> k == l
  {
    MixH1IsBijectiveInEachArgument(h, MixK1(k), 0);
    MixH1IsBijectiveInEachArgument(h, MixK1(l), 0);
    MixK1IsBijective(k);
    MixK1IsBijective(l);
  }

  /** The lower half of the one word with the given upper half that mixes to `v`. */
  function LowerHalfFor(v: u32, high: u32): u32 {
    var h := Run(UNMIX_H1, Xor32(Run(UNFMIX, v), 8));
    Run(UNMIX_K1, Xor32(SEED, Run(UNMIX_H1, Xor32(h, MixK1(high)))))
  }

  /** For each upper half, every hash has exactly one lower half, which is given; zero alone is not mixed. */
  lemma IntegerU64HitsIff(x: u64, v: u32)
    requires x != 0
    ensures IntegerU64(x) == v <==> x % TWO_32 == LowerHalfFor(v, x / TWO_32)
  {
    MixedHitsIff(x % TWO_32, x / TWO_32, v);
  }

  lemma MixedHitsIff(low: u32, high: u32, v: u32)
    ensures FmixLength(MixH1(MixH1(SEED, MixK1(low)), MixK1(high)), 8) == v <==> low == LowerHalfFor(v, high)
  {
    var k := MixK1(high);
    var c := Xor32(Run(UNFMIX, v), 8);
    var b := Xor32(Run(UNMIX_H1, c), k);
    FmixHitsIff(MixH1(MixH1(SEED, MixK1(low)), k), 8, v);
    MixH1HitsIff(MixH1(SEED, MixK1(low)), k, c);
    MixK1HitsIff(low, b);
  }

  lemma FmixHitsIff(h: u32, length: u32, v: u32)
    ensures FmixLength(h, length) == v <==> h == Xor32(Run(UNFMIX, v), length)
  {
    FmixIsBijective(Xor32(h, length));
    FmixIsBijective(v);
    XorCancels(h, length);
    XorCancels(Run(UNFMIX, v), length);
  }

  lemma MixH1HitsIff(h: u32, k: u32, c: u32)
    ensures MixH1(h, k) == c <==> h == Xor32(Run(UNMIX_H1, c), k)
  {
    MixH1IsBijectiveInEachArgument(h, k, c);
  }

  lemma MixK1HitsIff(low: u32, b: u32)
    ensures MixH1(SEED, MixK1(low)) == b <==> low == Run(UNMIX_K1, Xor32(SEED, Run(UNMIX_H1, b)))
  {
    var k := Xor32(SEED, Run(UNMIX_H1, b));
    MixH1IsBijectiveInEachArgument(SEED, MixK1(low), b);
    MixK1IsBijective(low);
    MixK1IsBijective(k);
  }

  // ---------------------------------------------------------------------------------------------
  // Collection folds, over the hashes of the elements
  // ---------------------------------------------------------------------------------------------

  /** The element counter `n`, which wraps at 2^32. */
  function Count(s: seq<u32>): u32 {
    if s == [] then 0 else Wrap32(Count(s[..|s| - 1]) + 1)
  }

  function OrderedStep(acc: u32, h: u32): u32 {
    Wrap32(31 * acc + h)
  }

  function UnorderedStep(acc: u32, h: u32): u32 {
    Wrap32(acc + h)
  }

  function OrderedHash(s: seq<u32>): u32 {
    MixCollectionHash(Fold(OrderedStep, 1, s), Count(s))
  }

  function UnorderedHash(acc: u32, s: seq<u32>): u32 {
    MixCollectionHash(Fold(UnorderedStep, acc, s), Count(s))
  }

  /** What a map entry contributes to the unordered fold. */
  function EntryHash(e: (u32, u32)): u32 {
    Wrap32(Wrap32(31 * e.0) + e.1)
  }

  function EntryHashes(es: seq<(u32, u32)>): (s: seq<u32>)
    ensures |s| == |es| && forall i :: 0 <= i < |es| ==> s[i] == EntryHash(es[i])
  {
    seq(|es|, i requires 0 <= i < |es| => EntryHash(es[i]))
  }

  /** A runtime object as the object forms of the folds see it. */
  datatype Hashable = SequenceLike(elements: seq<u32>) | Other(hash: u32)

  /** One turn of the loops below. */
  lemma OneMore(step: (u32, u32) -> u32, acc: u32, s: seq<u32>, i: nat)
    requires i < |s|
    ensures Fold(step, acc, s[..i + 1]) == step(Fold(step, acc, s[..i]), s[i])
    ensures Count(s[..i + 1]) == Wrap32(Count(s[..i]) + 1)
  {
    assert s[..i + 1][..i] == s[..i];
  }

  method Ordered(elements: seq<u32>) returns (r: u32)
    ensures r == OrderedHash(elements)
  {
    var n: u32 := 0;
    var hash: u32 := 1;
    for i := 0 to |elements|
      invariant hash == Fold(OrderedStep, 1, elements[..i]) && n == Count(elements[..i])
    {
      OneMore(OrderedStep, 1, elements, i);
      hash := OrderedStep(hash, elements[i]);
      n := Wrap32(n + 1);
    }
    assert elements[..|elements|] == elements;
    return MixCollectionHash(hash, n);
  }

  method OrderedObject(o: Hashable) returns (r: u32)
    ensures o.SequenceLike? ==> r == OrderedHash(o.elements)
    ensures o.Other? ==> r == o.hash
  {
    match o
    case Other(hash) =>
      r := hash;
    case SequenceLike(elements) =>
      var n: u32 := 0;
      var hash: u32 := 1;
      for i := 0 to |elements|
        invariant hash == Fold(OrderedStep, 1, elements[..i]) && n == Count(elements[..i])
      {
        OneMore(OrderedStep, 1, elements, i);
        hash := OrderedStep(hash, elements[i]);
        n := Wrap32(n + 1);
      }
      assert elements[..|elements|] == elements;
      r := MixCollectionHash(hash, n);
  }

  /** The iterator form: its accumulator starts at 0. */
  method Unordered(elements: seq<u32>) returns (r: u32)
    ensures r == UnorderedHash(0, elements)
  {
    var hash: u32 := 0;
    var n: u32 := 0;
    for i := 0 to |elements|
      invariant hash == Fold(UnorderedStep, 0, elements[..i]) && n == Count(elements[..i])
    {
      OneMore(UnorderedStep, 0, elements, i);
      hash := UnorderedStep(hash, elements[i]);
      n := Wrap32(n + 1);
    }
    assert elements[..|elements|] == elements;
    return MixCollectionHash(hash, n);
  }

  /** The iterator form over map entries. */
  method UnorderedEntries(entries: seq<(u32, u32)>) returns (r: u32)
    ensures r == UnorderedHash(0, EntryHashes(entries))
  {
    var hash: u32 := 0;
    var n: u32 := 0;
    ghost var hs := EntryHashes(entries);
    for i := 0 to |entries|
      invariant hash == Fold(UnorderedStep, 0, hs[..i]) && n == Count(hs[..i])
    {
      OneMore(UnorderedStep, 0, hs, i);
      hash := UnorderedStep(hash, EntryHash(entries[i]));
      n := Wrap32(n + 1);
    }
    assert hs[..|entries|] == hs;
    return MixCollectionHash(hash, n);
  }

  /** The object form: its accumulator starts at 1. */
  method UnorderedObject(o: Hashable) returns (r: u32)
    ensures o.SequenceLike? ==> r == UnorderedHash(1, o.elements)
    ensures o.Other? ==> r == o.hash
  {
    match o
    case Other(hash) =>
      r := hash;
    case SequenceLike(elements) =>
      var n: u32 := 0;
      var hash: u32 := 1;
      for i := 0 to |elements|
        invariant hash == Fold(UnorderedStep, 1, elements[..i]) && n == Count(elements[..i])
      {
        OneMore(UnorderedStep, 1, elements, i);
        hash := UnorderedStep(hash, elements[i]);
        n := Wrap32(n + 1);
      }
      assert elements[..|elements|] == elements;
      r := MixCollectionHash(hash, n);
  }

  // ---------------------------------------------------------------------------------------------
  // What the folds add up to, without wrapping
  // ---------------------------------------------------------------------------------------------

  function PowerOf31(n: nat): nat {
    if n == 0 then 1 else 31 * PowerOf31(n - 1)
  }

  /** The base-31 number with these digits, the first the most significant. */
  function Base31(s: seq<u32>): nat {
    if s == [] then 0 else s[0] * PowerOf31(|s| - 1) + Base31(s[1..])
  }

  function Sum(s: seq<u32>): nat {
    if s == [] then 0 else s[0] + Sum(s[1..])
  }

  lemma {:induction false} CountIsLength(s: seq<u32>)
    ensures Count(s) == Wrap32(|s|)
  {
    if s != [] {
      CountIsLength(s[..|s| - 1]);
      WrapPlus(|s| - 1, 1);
    }
  }

  lemma WrapPlus(x: nat, v: nat)
    ensures Wrap32(Wrap32(x) + v) == Wrap32(x + v)
  {}

  lemma {:induction false} Base31Appends(s: seq<u32>, e: u32)
    ensures Base31(s + [e]) == 31 * Base31(s) + e
  {
    if s == [] {
      assert [e][1..] == [];
    } else {
      assert (s + [e])[1..] == s[1..] + [e];
      Base31Appends(s[1..], e);
      var p := PowerOf31(|s| - 1);
      assert s[0] * (31 * p) == 31 * (s[0] * p);
    }
  }

  lemma {:induction false} SumAppends(s: seq<u32>, e: u32)
    ensures Sum(s + [e]) == Sum(s) + e
  {
    if s == [] {
      assert [e][1..] == [];
    } else {
      assert (s + [e])[1..] == s[1..] + [e];
      SumAppends(s[1..], e);
    }
  }

  lemma {:induction false} OrderedFoldIsBase31(acc: u32, s: seq<u32>)
    ensures Fold(OrderedStep, acc, s) == Wrap32(acc * PowerOf31(|s|) + Base31(s))
  {
    if s != [] {
      var n := |s| - 1;
      OrderedFoldIsBase31(acc, s[..n]);
      Base31Appends(s[..n], s[n]);
      assert s[..n] + [s[n]] == s;
      OneMoreDigit(acc, PowerOf31(n), Base31(s[..n]), s[n]);
    }
  }

  lemma OneMoreDigit(acc: nat, p: nat, b: nat, e: u32)
    ensures OrderedStep(Wrap32(acc * p + b), e) == Wrap32(acc * (31 * p) + (31 * b + e))
  {
    WrapInside(acc * p + b, e);
    assert 31 * (acc * p + b) + e == acc * (31 * p) + (31 * b + e);
  }

  lemma {:induction false} UnorderedFoldIsSum(acc: u32, s: seq<u32>)
    ensures Fold(UnorderedStep, acc, s) == Wrap32(acc + Sum(s))
  {
    if s != [] {
      var n := |s| - 1;
      UnorderedFoldIsSum(acc, s[..n]);
      SumAppends(s[..n], s[n]);
      assert s[..n] + [s[n]] == s;
      WrapPlus(acc + Sum(s[..n]), s[n]);
    }
  }

  /** An ordered hash mixes the base-31 number of the element hashes, behind a leading digit 1, and the length. */
  lemma OrderedHashIsBase31(s: seq<u32>)
    ensures OrderedHash(s) == MixCollectionHash(Wrap32(PowerOf31(|s|) + Base31(s)), Wrap32(|s|))
  {
    OrderedFoldFromOne(s);
    CountIsLength(s);
  }

  lemma OrderedFoldFromOne(s: seq<u32>)
    ensures Fold(OrderedStep, 1, s) == Wrap32(PowerOf31(|s|) + Base31(s))
  {
    OrderedFoldIsBase31(1, s);
    assert 1 * PowerOf31(|s|) == PowerOf31(|s|);
  }

  /** An unordered hash mixes the sum of the element hashes, from where it starts, and the length. */
  lemma UnorderedHashIsSum(acc: u32, s: seq<u32>)
    ensures UnorderedHash(acc, s) == MixCollectionHash(Wrap32(acc + Sum(s)), Wrap32(|s|))
  {
    UnorderedFoldIsSum(acc, s);
    CountIsLength(s);
  }

  // ---------------------------------------------------------------------------------------------
  // Map entries
  // ---------------------------------------------------------------------------------------------

  /** An entry contributes the base-31 number of the hashes of its key and its value, in that order. */
  lemma EntryHashIsBase31(k: u32, v: u32)
    ensures EntryHash((k, v)) == Fold(OrderedStep, 0, [k, v]) == Wrap32(Base31([k, v]))
  {
    EntryHashIsTwoSteps(k, v);
    FoldTwo(OrderedStep, 0, k, v);
    OrderedFoldIsBase31(0, [k, v]);
    assert 0 * PowerOf31(2) == 0;
  }

  lemma EntryHashSeparates(k: u32, v: u32, l: u32, w: u32)
    ensures EntryHash((k, v)) == EntryHash((k, w)) <==> v == w
    ensures EntryHash((k, v)) == EntryHash((l, v)) <==> k == l
    ensures EntryHash((k, v)) == EntryHash((v, k)) <==> k == v || SameButTopBit(k, v)
  {
    EntryHashIsTwoSteps(k, v);
    EntryHashIsTwoSteps(k, w);
    EntryHashIsTwoSteps(l, v);
    EntryHashIsTwoSteps(v, k);
    OrderedStepSeparatesElements(k, v, w);
    OrderedStepSeparatesAccumulators(k, l, v);
    NeighbourArithmetic(0, k, v);
  }

  lemma EntryHashIsTwoSteps(k: u32, v: u32)
    ensures EntryHash((k, v)) == OrderedStep(k, v)
    ensures OrderedStep(0, k) == k
  {
    WrapPlus(31 * k, v);
    StepFromZero(0, k);
  }

  lemma StepFromZero(z: u32, k: u32)
    requires z == 0
    ensures OrderedStep(z, k) == k
  {}

  /** Changing the hash of one element changes an unordered hash, too. */
  lemma UnorderedSeparatesOnePosition(acc: u32, p: seq<u32>, a: u32, b: u32, q: seq<u32>)
    ensures UnorderedHash(acc, p + [a] + q) == UnorderedHash(acc, p + [b] + q) <==> a == b
  {
    var s, t := p + [a] + q, p + [b] + q;
    CountDependsOnLength(s, t);
    MixCollectionHashIsInjective(Fold(UnorderedStep, acc, s), Fold(UnorderedStep, acc, t), 0, Count(s));
    UnorderedStepIsInjective();
    FoldMiddle(UnorderedStep, acc, p, [a], [b], q);
    FoldOne(UnorderedStep, Fold(UnorderedStep, acc, p), a);
    FoldOne(UnorderedStep, Fold(UnorderedStep, acc, p), b);
  }

  lemma UnorderedStepIsInjective()
    ensures InjectiveInAccumulator(UnorderedStep) && InjectiveInElement(UnorderedStep)
  {
    forall x: u32, y: u32, e: u32
      ensures UnorderedStep(x, e) == UnorderedStep(y, e) ==> x == y
    {
      WrapDifference(x + e, y + e);
    }
    forall x: u32, e: u32, f: u32
      ensures UnorderedStep(x, e) == UnorderedStep(x, f) ==> e == f
    {
      WrapDifference(x + e, x + f);
    }
  }

  /**
    Changing one key or one value of a map changes its hash. Exchanging them does, unless their hashes are equal or
    differ in the top bit alone.
   */
  lemma EntriesSeparateOnePosition(p: seq<(u32, u32)>, k: u32, v: u32, l: u32, w: u32, q: seq<(u32, u32)>)
    ensures var h := (e: (u32, u32)) => UnorderedHash(0, EntryHashes(p + [e] + q));
            && (h((k, v)) == h((k, w)) <==> v == w)
            && (h((k, v)) == h((l, v)) <==> k == l)
            && (h((k, v)) == h((v, k)) <==> k == v || SameButTopBit(k, v))
  {
    EntryHashSeparates(k, v, l, w);
    EntrySeparates(p, (k, v), (k, w), q);
    EntrySeparates(p, (k, v), (l, v), q);
    EntrySeparates(p, (k, v), (v, k), q);
  }

  lemma EntrySeparates(p: seq<(u32, u32)>, e: (u32, u32), f: (u32, u32), q: seq<(u32, u32)>)
    ensures UnorderedHash(0, EntryHashes(p + [e] + q)) == UnorderedHash(0, EntryHashes(p + [f] + q))
            <==> EntryHash(e) == EntryHash(f)
  {
    assert EntryHashes(p + [e] + q) == EntryHashes(p) + [EntryHash(e)] + EntryHashes(q);
    assert EntryHashes(p + [f] + q) == EntryHashes(p) + [EntryHash(f)] + EntryHashes(q);
    UnorderedSeparatesOnePosition(0, EntryHashes(p), EntryHash(e), EntryHash(f), EntryHashes(q));
  }

  // ---------------------------------------------------------------------------------------------
  // Ordered hashes separate sequences
  // ---------------------------------------------------------------------------------------------

  lemma {:induction false} CountDependsOnLength(s: seq<u32>, t: seq<u32>)
    requires |s| == |t|
    ensures Count(s) == Count(t)
  {
    if s != [] {
      CountDependsOnLength(s[..|s| - 1], t[..|t| - 1]);
    }
  }

  lemma OrderedStepIsInjective()
    ensures InjectiveInAccumulator(OrderedStep) && InjectiveInElement(OrderedStep)
  {
    forall x: u32, y: u32, e: u32
      ensures OrderedStep(x, e) == OrderedStep(y, e) ==> x == y
    {
      OrderedStepSeparatesAccumulators(x, y, e);
    }
    forall x: u32, e: u32, f: u32
      ensures OrderedStep(x, e) == OrderedStep(x, f) ==> e == f
    {
      OrderedStepSeparatesElements(x, e, f);
    }
  }

  lemma OrderedStepSeparatesAccumulators(x: u32, y: u32, e: u32)
    ensures OrderedStep(x, e) == OrderedStep(y, e) ==> x == y
  {
    if OrderedStep(x, e) == OrderedStep(y, e) {
      TimesIsInvertible(31, 0xbdef_7bdf, x);
      TimesIsInvertible(31, 0xbdef_7bdf, y);
      AffineCancels(31 * x, 31 * y, e);
    }
  }

  lemma OrderedStepSeparatesElements(x: u32, e: u32, f: u32)
    ensures OrderedStep(x, e) == OrderedStep(x, f) ==> e == f
  {
    WrapDifference(31 * x + e, 31 * x + f);
  }

  lemma AffineCancels(x: nat, y: nat, v: u32)
    requires Wrap32(x + v) == Wrap32(y + v)
    ensures Wrap32(x) == Wrap32(y)
  {}

  /** Hashes of equally long sequences agree only when their folds do. */
  lemma OrderedHashReflectsFold(s: seq<u32>, t: seq<u32>)
    requires |s| == |t|
    ensures OrderedHash(s) == OrderedHash(t) <==> Fold(OrderedStep, 1, s) == Fold(OrderedStep, 1, t)
  {
    CountDependsOnLength(s, t);
    MixCollectionHashIsInjective(Fold(OrderedStep, 1, s), Fold(OrderedStep, 1, t), 0, Count(s));
  }

  /** Changing exactly one element hash always changes the ordered hash: 31 is a unit modulo 2^32. */
  lemma OrderedSeparatesOnePosition(p: seq<u32>, a: u32, b: u32, q: seq<u32>)
    ensures OrderedHash(p + [a] + q) == OrderedHash(p + [b] + q) <==> a == b
  {
    OrderedHashReflectsFold(p + [a] + q, p + [b] + q);
    OrderedStepIsInjective();
    FoldMiddle(OrderedStep, 1, p, [a], [b], q);
    FoldOne(OrderedStep, Fold(OrderedStep, 1, p), a);
    FoldOne(OrderedStep, Fold(OrderedStep, 1, p), b);
  }

  predicate SameButTopBit(a: u32, b: u32) {
    a - b == 0x8000_0000 || b - a == 0x8000_0000
  }

  /**
    Swapping two neighbours changes the ordered hash unless their hashes are equal or differ in the top bit
    alone: 31 - 1 is even, so that one bit is lost.
   */
  lemma OrderedSeparatesNeighbours(p: seq<u32>, a: u32, b: u32, q: seq<u32>)
    ensures OrderedHash(p + [a, b] + q) == OrderedHash(p + [b, a] + q) <==> a == b || SameButTopBit(a, b)
  {
    OrderedHashReflectsFold(p + [a, b] + q, p + [b, a] + q);
    OrderedStepIsInjective();
    FoldMiddle(OrderedStep, 1, p, [a, b], [b, a], q);
    FoldTwo(OrderedStep, Fold(OrderedStep, 1, p), a, b);
    FoldTwo(OrderedStep, Fold(OrderedStep, 1, p), b, a);
    NeighbourArithmetic(Fold(OrderedStep, 1, p), a, b);
  }

  lemma NeighbourArithmetic(acc: u32, a: u32, b: u32)
    ensures OrderedStep(OrderedStep(acc, a), b) == OrderedStep(OrderedStep(acc, b), a)
            <==> a == b || SameButTopBit(a, b)
  {
    TwoOrderedSteps(acc, a, b);
    TwoOrderedSteps(acc, b, a);
    WrapDifference(961 * acc + 31 * a + b, 961 * acc + 31 * b + a);
    ThirtyTimes(a - b);
  }

  lemma TwoOrderedSteps(acc: u32, a: u32, b: u32)
    ensures OrderedStep(OrderedStep(acc, a), b) == Wrap32(961 * acc + 31 * a + b)
  {
    WrapInside(31 * acc + a, b);
  }

  lemma WrapInside(y: nat, v: u32)
    ensures Wrap32(31 * Wrap32(y) + v) == Wrap32(31 * y + v)
  {
    var q, w := y / TWO_32, Wrap32(y);
    assert y == w + TWO_32 * q;
    MultipleVanishes(31 * w + v, 31 * q);
  }

  lemma MultipleVanishes(x: int, k: int)
    ensures Wrap32(x + TWO_32 * k) == Wrap32(x)
  {}

  lemma WrapDifference(x: int, y: int)
    ensures Wrap32(x) == Wrap32(y) <==> (x - y) % TWO_32 == 0
  {}

  lemma ThirtyTimes(d: int)
    requires -TWO_32 < d < TWO_32
    ensures 30 * d % TWO_32 == 0 <==> d == 0 || d == 0x8000_0000 || d == -0x8000_0000
  {
    if 30 * d % TWO_32 == 0 {
      var k := 30 * d / TWO_32;
      FifteenTimes(d, k);
    }
  }

  /** 15 and 2^31 have no common factor: a multiple of both is one of their product. */
  lemma FifteenTimes(d: int, k: int)
    requires 15 * d == 0x8000_0000 * k && -0x1_0000_0000 < d < 0x1_0000_0000
    ensures d == 0 || d == 0x8000_0000 || d == -0x8000_0000
  {
    var j := 2 * d - 0x1111_1111 * k;
    assert k == 15 * j;
    assert d == 0x8000_0000 * j;
  }

  // ---------------------------------------------------------------------------------------------
  // Unordered hashes ignore order
  // ---------------------------------------------------------------------------------------------

  lemma UnorderedStepCommutes()
    ensures Commuting(UnorderedStep)
  {
    forall x: u32, e: u32, f: u32
      ensures UnorderedStep(UnorderedStep(x, e), f) == UnorderedStep(UnorderedStep(x, f), e)
    {
      WrapAdd(x, e, f);
      WrapAdd(x, f, e);
    }
  }

  /** In either form, two arrangements of the same element hashes get the same hash. */
  lemma UnorderedIgnoresOrder(acc: u32, s: seq<u32>, t: seq<u32>)
    requires multiset(s) == multiset(t)
    ensures UnorderedHash(acc, s) == UnorderedHash(acc, t)
  {
    UnorderedStepCommutes();
    FoldIgnoresOrder(UnorderedStep, acc, s, t);
    CountDependsOnLength(s, t);
  }

  lemma {:induction false} UnorderedShiftsWithSeed(s: seq<u32>)
    ensures Fold(UnorderedStep, 1, s) == UnorderedStep(Fold(UnorderedStep, 0, s), 1)
  {
    if s != [] {
      UnorderedShiftsWithSeed(s[..|s| - 1]);
      UnorderedStepCommutes();
    }
  }

  /** The object form and the iterator form disagree on every input, even up to reordering. */
  lemma UnorderedFormsAlwaysDiffer(s: seq<u32>, t: seq<u32>)
    requires multiset(s) == multiset(t)
    ensures UnorderedHash(0, s) != UnorderedHash(1, t)
  {
    UnorderedIgnoresOrder(1, t, s);
    UnorderedShiftsWithSeed(s);
    MixCollectionHashIsInjective(Fold(UnorderedStep, 0, s), Fold(UnorderedStep, 1, s), 0, Count(s));
  }
}

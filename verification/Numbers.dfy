/**
  Equality and comparison of boxed words: small integers and reals kept in the word, large integers kept in objects.
 */
module Numbers {

  import opened Wrappers
  import opened Words
  import opened Boxing

  // ---------------------------------------------------------------------------------------------
  // Doubles and their order
  // ---------------------------------------------------------------------------------------------

  /** A finite double as a multiple of the smallest positive one, 2^-1074. */
  datatype Double = NegativeInfinity | Finite(units: int) | PositiveInfinity | NaN

  ghost function Decode(bits: u64): Double {
    var e, m := Exponent(bits), Mantissa(bits);
    if e == 2047 then
      if m != 0 then NaN else if IsNegative(bits) then NegativeInfinity else PositiveInfinity
    else
      Finite(if IsNegative(bits) then 0 - Units(e, m) else Units(e, m))
  }

  /** Without the implicit top bit of the mantissa for the smallest exponent. */
  ghost function Units(e: nat, m: nat): nat {
    if e == 0 then m else (TWO_52 + m) * Pow2(e - 1)
  }

  const TWO_52: nat := 0x10_0000_0000_0000

  predicate LessDouble(a: Double, b: Double) {
    match (a, b)
    case (NaN, _) => false
    case (_, NaN) => false
    case (Finite(x), Finite(y)) => x < y
    case (NegativeInfinity, _) => b != NegativeInfinity
    case (_, PositiveInfinity) => a != PositiveInfinity
    case _ => false
  }

  predicate EqualDouble(a: Double, b: Double) {
    a == b && a != NaN
  }

  /** Doubles that are not negative are in the order of their words. */
  lemma NonNegativeDoublesCompareAsWords(w: u64, v: u64)
    requires !IsNegative(w) && !IsNegative(v) && !IsNaN(w) && !IsNaN(v)
    ensures LessDouble(Decode(w), Decode(v)) <==> w < v
  {
    if w < v {
      LargerWordIsGreater(w, v);
    } else if v < w {
      LargerWordIsGreater(v, w);
    }
  }

  lemma WordOrder(w: u64, v: u64)
    requires !IsNegative(w) && !IsNegative(v)
    ensures w < v <==> Exponent(w) < Exponent(v) || (Exponent(w) == Exponent(v) && Mantissa(w) < Mantissa(v))
    ensures w == v <==> Exponent(w) == Exponent(v) && Mantissa(w) == Mantissa(v)
  {}

  lemma LargerWordIsGreater(w: u64, v: u64)
    requires !IsNegative(w) && !IsNegative(v) && !IsNaN(w) && !IsNaN(v) && w < v
    ensures LessDouble(Decode(w), Decode(v))
  {
    WordOrder(w, v);
    if Exponent(v) < 2047 {
      UnitsGrow(Exponent(w), Mantissa(w), Exponent(v), Mantissa(v));
    }
  }

  lemma UnitsGrow(e: nat, m: nat, f: nat, n: nat)
    requires m < TWO_52 && n < TWO_52 && (e < f || (e == f && m < n))
    ensures Units(e, m) < Units(f, n)
  {
    if e == f {
      if e > 0 {
        UnitsKeepOrder(TWO_52 + m, TWO_52 + n, Pow2(e - 1));
      }
    } else {
      Pow2Grows(e, f - 1);
      Scaled(e, m);
      MulMonotone(TWO_52, TWO_52 + n, Pow2(f - 1));
      MulMonotone(Pow2(e), Pow2(f - 1), TWO_52);
    }
  }

  lemma Scaled(e: nat, m: nat)
    requires m < TWO_52
    ensures Units(e, m) < TWO_52 * Pow2(e)
  {
    if e > 0 {
      var p := Pow2(e - 1);
      UnitsKeepOrder(TWO_52 + m, 2 * TWO_52, p);
      assert TWO_52 * (2 * p) == 2 * TWO_52 * p;
    }
  }

  lemma {:induction false} Pow2Grows(a: nat, b: nat)
    requires a <= b
    ensures Pow2(a) <= Pow2(b)
  {
    if a < b {
      Pow2Grows(a, b - 1);
    }
  }

  // ---------------------------------------------------------------------------------------------
  // Doubles of either sign
  // ---------------------------------------------------------------------------------------------

  const MINUS_ZERO: u64 := 0x8000_0000_0000_0000

  lemma UnitsAreZeroIff(e: nat, m: nat)
    ensures Units(e, m) == 0 <==> e == 0 && m == 0
  {
    if e > 0 {
      UnitsKeepOrder(0, TWO_52 + m, Pow2(e - 1));
    }
  }

  lemma NonNegativeDoublesAreDistinct(w: u64, v: u64)
    requires !IsNegative(w) && !IsNegative(v) && !IsNaN(w) && !IsNaN(v)
    ensures Decode(w) == Decode(v) <==> w == v
  {
    if w < v {
      LargerWordIsGreater(w, v);
    } else if v < w {
      LargerWordIsGreater(v, w);
    }
  }

  function Negated(d: Double): Double {
    match d
    case NegativeInfinity => PositiveInfinity
    case Finite(x) => Finite(0 - x)
    case PositiveInfinity => NegativeInfinity
    case NaN => NaN
  }

  /** The sign bit negates. */
  lemma NegativeMirrors(m: u64)
    requires !IsNegative(m)
    ensures IsNegative(m + MINUS_ZERO) && (IsNaN(m + MINUS_ZERO) <==> IsNaN(m))
    ensures Decode(m + MINUS_ZERO) == Negated(Decode(m))
  {
    assert Exponent(m + MINUS_ZERO) == Exponent(m) && Mantissa(m + MINUS_ZERO) == Mantissa(m);
  }

  /** Only zeros are equal to a double of the other sign. */
  lemma OppositeDoublesAreZeros(w: u64, m: u64)
    requires !IsNegative(w) && !IsNegative(m) && !IsNaN(w) && !IsNaN(m)
    ensures Decode(w) == Negated(Decode(m)) <==> w == 0 && m == 0
  {
    NonNegativeDoubleIsNotBelowZero(w);
    NonNegativeDoubleIsNotBelowZero(m);
    OppositesMeetAtZero(Decode(w), Decode(m));
  }

  predicate NotBelowZero(d: Double) {
    d == PositiveInfinity || (d.Finite? && d.units >= 0)
  }

  predicate IsZero(d: Double) {
    d.Finite? && d.units == 0
  }

  lemma NegatedUnits(a: Double)
    requires NotBelowZero(a)
    ensures var n := Negated(a); if a.Finite? then n.Finite? && n.units == -a.units else n == NegativeInfinity
  {}

  lemma OppositesMeetAtZero(a: Double, b: Double)
    requires NotBelowZero(a) && NotBelowZero(b)
    ensures a == Negated(b) <==> IsZero(a) && IsZero(b)
  {
    NegatedUnits(b);
  }

  lemma NonNegativeDoubleIsNotBelowZero(w: u64)
    requires !IsNegative(w) && !IsNaN(w)
    ensures NotBelowZero(Decode(w))
    ensures IsZero(Decode(w)) <==> w == 0
  {
    UnitsAreZeroIff(Exponent(w), Mantissa(w));
    WordOrder(w, 0);
  }

  lemma NegationIsInjective(a: Double, b: Double)
    ensures Negated(a) == Negated(b) <==> a == b
  {}

  lemma NaNIff(w: u64)
    ensures Decode(w) == NaN <==> IsNaN(w)
  {}

  /** Doubles are equal when their bits are, except for NaNs and the two zeros. */
  lemma EqualDoublesIff(w: u64, v: u64)
    ensures EqualDouble(Decode(w), Decode(v))
            <==> !IsNaN(w) && (w == v || (w == 0 && v == MINUS_ZERO) || (w == MINUS_ZERO && v == 0))
  {
    NaNIff(w);
    NaNIff(v);
    if !IsNaN(w) && !IsNaN(v) {
      DistinctDoubles(w, v);
    }
  }

  lemma DistinctDoubles(w: u64, v: u64)
    requires !IsNaN(w) && !IsNaN(v)
    ensures Decode(w) == Decode(v) <==> w == v || (w == 0 && v == MINUS_ZERO) || (w == MINUS_ZERO && v == 0)
  {
    var m, n := Magnitude(w), Magnitude(v);
    if !IsNegative(w) && !IsNegative(v) {
      NonNegativeDoublesAreDistinct(w, v);
    } else if IsNegative(w) && IsNegative(v) {
      NegativeMirrors(m);
      NegativeMirrors(n);
      NegationIsInjective(Decode(m), Decode(n));
      NonNegativeDoublesAreDistinct(m, n);
    } else if IsNegative(v) {
      NegativeMirrors(n);
      OppositeDoublesAreZeros(w, n);
    } else {
      NegativeMirrors(m);
      OppositeDoublesAreZeros(v, m);
    }
  }

  /** All bits but the sign. */
  function Magnitude(w: u64): (m: u64)
    ensures !IsNegative(m) && w == if IsNegative(w) then m + MINUS_ZERO else m
  {
    if IsNegative(w) then w - MINUS_ZERO else w
  }

  lemma NegationReverses(a: Double, b: Double)
    ensures LessDouble(Negated(a), Negated(b)) <==> LessDouble(b, a)
  {}

  lemma BelowZero(a: Double, b: Double)
    requires NotBelowZero(a) && NotBelowZero(b)
    ensures LessDouble(Negated(a), b) <==> !(IsZero(a) && IsZero(b))
    ensures !LessDouble(b, Negated(a))
  {
    NegatedUnits(a);
    LowestFirst(Negated(a), b);
  }

  lemma LowestFirst(n: Double, b: Double)
    requires NotBelowZero(b)
    requires n == NegativeInfinity || (n.Finite? && n.units <= 0)
    ensures LessDouble(n, b) <==> !(IsZero(n) && IsZero(b))
    ensures !LessDouble(b, n)
  {}

  /** The order of doubles by their bits: sign and magnitude, with the two zeros together and NaN apart. */
  lemma DoublesCompareAsWords(w: u64, v: u64)
    ensures LessDouble(Decode(w), Decode(v)) <==> LessByBits(w, v)
  {
    NaNIff(w);
    NaNIff(v);
    if !IsNaN(w) && !IsNaN(v) {
      DoublesCompareBySign(w, v);
    }
  }

  lemma DoublesCompareBySign(w: u64, v: u64)
    requires !IsNaN(w) && !IsNaN(v)
    ensures LessDouble(Decode(w), Decode(v)) <==> LessByBits(w, v)
  {
    var m, n := Magnitude(w), Magnitude(v);
    if IsNegative(w) && IsNegative(v) {
      BothNegative(m, n);
    } else if IsNegative(w) {
      OppositeSigns(m, v);
    } else if IsNegative(v) {
      OppositeSigns(n, w);
    } else {
      NonNegativeDoublesCompareAsWords(w, v);
    }
  }

  lemma BothNegative(m: u64, n: u64)
    requires !IsNegative(m) && !IsNegative(n) && !IsNaN(m + MINUS_ZERO) && !IsNaN(n + MINUS_ZERO)
    ensures LessDouble(Decode(m + MINUS_ZERO), Decode(n + MINUS_ZERO)) <==> n < m
  {
    NegativeMirrors(m);
    NegativeMirrors(n);
    NegationReverses(Decode(m), Decode(n));
    NonNegativeDoublesCompareAsWords(n, m);
  }

  lemma OppositeSigns(m: u64, v: u64)
    requires !IsNegative(m) && !IsNegative(v) && !IsNaN(m + MINUS_ZERO) && !IsNaN(v)
    ensures LessDouble(Decode(m + MINUS_ZERO), Decode(v)) <==> m != 0 || v != 0
    ensures !LessDouble(Decode(v), Decode(m + MINUS_ZERO))
  {
    NegativeMirrors(m);
    NonNegativeDoubleIsNotBelowZero(m);
    NonNegativeDoubleIsNotBelowZero(v);
    BelowZero(Decode(m), Decode(v));
  }

  // ---------------------------------------------------------------------------------------------
  // Integers as doubles
  // ---------------------------------------------------------------------------------------------

  const TWO_53: int := 0x20_0000_0000_0000

  /** The distance of doubles near `n`: the least power of two of which 53 bits reach beyond `n`. */
  function Spacing(n: nat): (u: nat)
    ensures u > 0
  {
    if n < TWO_53 then 1 else 2 * Spacing(n / 2)
  }

  /** To the nearest multiple, and to the even one of two. */
  function RoundTo(n: nat, u: nat): nat
    requires u > 0
  {
    var q, r := n / u, n % u;
    if 2 * r < u || (2 * r == u && q % 2 == 0) then q * u else (q + 1) * u
  }

  function Rounded(n: int): int {
    if n < 0 then 0 - RoundTo(-n, Spacing(-n)) else RoundTo(n, Spacing(n))
  }

  ghost function ToDouble(n: int): Double {
    Finite(Rounded(n) * Pow2(1074))
  }

  lemma {:induction false} SpacingCovers(n: nat)
    ensures n < TWO_53 * Spacing(n)
    ensures Spacing(n) == 1 || (Spacing(n) % 2 == 0 && TWO_53 / 2 * Spacing(n) <= n)
  {
    if n >= TWO_53 {
      SpacingCovers(n / 2);
    }
  }

  lemma {:induction false} SpacingGrows(n: nat, m: nat)
    requires n <= m
    ensures Spacing(n) == Spacing(m) || 2 * Spacing(n) <= Spacing(m)
  {
    if n >= TWO_53 {
      SpacingGrows(n / 2, m / 2);
    } else if m >= TWO_53 {
      assert Spacing(m) >= 2;
    }
  }

  /** A number is rounded to the multiple `p` below it or to the next one. */
  lemma Parts(n: nat, u: nat) returns (q: nat, p: nat, r: nat)
    requires u > 0
    ensures p == q * u && n == p + r && r < u
    ensures RoundTo(n, u) == if 2 * r < u || (2 * r == u && q % 2 == 0) then p else p + u
  {
    q, r := n / u, n % u;
    p := q * u;
    assert (q + 1) * u == p + u;
  }

  lemma Multiples(a: nat, b: nat, u: nat)
    ensures a < b ==> a * u + u <= b * u
    ensures a <= b ==> a * u <= b * u
  {
    MulMonotone(a + 1, b, u);
    MulMonotone(a, b, u);
    assert (a + 1) * u == a * u + u;
  }

  lemma RoundingIsMonotoneAt(n: nat, m: nat, u: nat)
    requires u > 0 && n <= m
    ensures RoundTo(n, u) <= RoundTo(m, u)
  {
    var a, p, r := Parts(n, u);
    var b, q, s := Parts(m, u);
    Multiples(a, b, u);
    Multiples(b, a, u);
  }

  /** Rounding stays on the side of a multiple that the number is on. */
  lemma RoundingStaysBelow(n: nat, u: nat, k: nat)
    requires u > 0 && n < k * u
    ensures RoundTo(n, u) <= k * u
  {
    var q, p, r := Parts(n, u);
    Multiples(q, k, u);
    Multiples(k, q, u);
  }

  lemma RoundingStaysAbove(n: nat, u: nat, k: nat)
    requires u > 0 && k * u <= n
    ensures k * u <= RoundTo(n, u)
  {
    var q, p, r := Parts(n, u);
    Multiples(q, k, u);
    Multiples(k, q, u);
  }

  lemma RoundsAcross(n: nat, u: nat, m: nat, v: nat, j: nat, k: nat)
    requires u > 0 && v > 0 && n < j * u && j * u <= k * v && k * v <= m
    ensures RoundTo(n, u) <= RoundTo(m, v)
  {
    RoundingStaysBelow(n, u, j);
    RoundingStaysAbove(m, v, k);
  }

  lemma NaturalsRoundInOrder(n: nat, m: nat)
    requires n <= m
    ensures RoundTo(n, Spacing(n)) <= RoundTo(m, Spacing(m))
  {
    var u, v := Spacing(n), Spacing(m);
    SpacingGrows(n, m);
    if u == v {
      RoundingIsMonotoneAt(n, m, u);
    } else {
      SpacingCovers(n);
      SpacingCovers(m);
      RoundsAcross(n, u, m, v, TWO_53, TWO_53 / 2);
    }
  }

  lemma RoundingKeepsOrder(n: int, m: int)
    requires n <= m
    ensures Rounded(n) <= Rounded(m)
  {
    if n >= 0 {
      NaturalsRoundInOrder(n, m);
    } else if m < 0 {
      NaturalsRoundInOrder(-m, -n);
    } else {
      RoundingStaysAbove(-n, Spacing(-n), 0);
      RoundingStaysAbove(m, Spacing(m), 0);
    }
  }

  function Distance(x: int, y: int): nat {
    if x <= y then y - x else x - y
  }

  /** No other multiple is nearer, and of two equally near ones it is the even one. */
  lemma RoundToIsNearest(n: nat, u: nat, k: nat)
    requires u > 0
    ensures Distance(RoundTo(n, u), n) <= Distance(k * u, n)
    ensures Distance(RoundTo(n, u), n) == Distance(k * u, n) && k * u != RoundTo(n, u) ==> k % 2 == 1
  {
    var q, p, r := Parts(n, u);
    Multiples(q, k, u);
    Multiples(k, q, u);
    Multiples(q + 1, k, u);
    Multiples(k, q + 1, u);
    assert (q + 1) * u == p + u;
  }

  lemma SmallIntegersAreExact(n: int)
    requires -TWO_53 < n < TWO_53
    ensures Rounded(n) == n
  {}

  lemma ToDoubleKeepsOrder(n: int, m: int)
    ensures n <= m ==> !LessDouble(ToDouble(m), ToDouble(n))
    ensures ToDouble(n) == ToDouble(m) <==> Rounded(n) == Rounded(m)
    ensures LessDouble(ToDouble(n), ToDouble(m)) <==> Rounded(n) < Rounded(m)
  {
    if n <= m {
      RoundingKeepsOrder(n, m);
    }
    UnitsKeepOrder(Rounded(n), Rounded(m), Pow2(1074));
    UnitsKeepOrder(Rounded(m), Rounded(n), Pow2(1074));
  }

  lemma UnitsKeepOrder(a: int, b: int, u: nat)
    requires u > 0
    ensures a < b <==> a * u < b * u
  {
    if a < b {
      assert b * u == a * u + (b - a) * u;
    } else {
      assert a * u == b * u + (a - b) * u;
    }
  }

  // ---------------------------------------------------------------------------------------------
  // Objects and references to them
  // ---------------------------------------------------------------------------------------------

  /** Objects of the heap, and those made on the stack for the two kinds of inline numbers. */
  datatype Object =
    | NilObject
    | IntegerObject(n: i64)
    | SmallIntegerObject(i: i32)
    | RealObject(bits: u64)
    | SmallRealObject(bits: u64)

  datatype ObjectType = NilType | IntegerType | SmallIntegerType | RealType | SmallRealType

  type memory = map<nat, Object>

  ghost predicate Refers(h: memory, w: u64) {
    IsSmallInt(w) || IsSmallReal(w) || (IsPointer(w) && AsPointer(w) in h)
  }

  predicate IsSome(h: memory, w: u64)
    requires Refers(h, w)
  {
    if IsSmallInt(w) then true
    else if IsSmallReal(w) then true
    else h[AsPointer(w)] != NilObject
  }

  predicate IsNil(h: memory, w: u64)
    requires Refers(h, w)
  {
    if IsSmallInt(w) || IsSmallReal(w) then false
    else h[AsPointer(w)] == NilObject
  }

  function TypeIn(o: Object): ObjectType {
    match o
    case NilObject => NilType
    case IntegerObject(_) => IntegerType
    case SmallIntegerObject(_) => SmallIntegerType
    case RealObject(_) => RealType
    case SmallRealObject(_) => SmallRealType
  }

  function TypeOf(h: memory, w: u64): ObjectType
    requires Refers(h, w)
  {
    if IsSmallInt(w) then SmallIntegerType
    else if IsSmallReal(w) then SmallRealType
    else TypeIn(h[AsPointer(w)])
  }

  /** The type tells the five kinds of objects apart, and inline numbers from the large ones. */
  lemma TypesTellApart(h: memory, w: u64)
    requires Refers(h, w)
    ensures IsSmallInt(w) ==> TypeOf(h, w) == SmallIntegerType
    ensures IsSmallReal(w) ==> TypeOf(h, w) == SmallRealType
    ensures IsPointer(w) ==>
              var o := h[AsPointer(w)];
              && (TypeOf(h, w) == NilType <==> o.NilObject?)
              && (TypeOf(h, w) == IntegerType <==> o.IntegerObject?)
              && (TypeOf(h, w) == SmallIntegerType <==> o.SmallIntegerObject?)
              && (TypeOf(h, w) == RealType <==> o.RealObject?)
              && (TypeOf(h, w) == SmallRealType <==> o.SmallRealObject?)
  {
    ClassesAreDisjoint(w);
  }

  /** A reference is in one class only, and is nil exactly when it is not some, which its type tells as well. */
  lemma ReferencesAreNilOrSome(h: memory, w: u64)
    requires Refers(h, w)
    ensures IsSome(h, w) <==> !IsNil(h, w)
    ensures IsNil(h, w) <==> TypeOf(h, w) == NilType
    ensures IsSmallInt(w) <==> !IsSmallReal(w) && !IsPointer(w)
    ensures IsSmallReal(w) <==> !IsSmallInt(w) && !IsPointer(w)
    ensures IsPointer(w) <==> !IsSmallInt(w) && !IsSmallReal(w)
  {
    ClassesAreDisjoint(w);
  }

  /** What a reference is reset to is nil, and no number is. */
  lemma ResetIsNil(h: memory, nil: address, i: i32, bits: u64)
    requires nil in h && h[nil] == NilObject
    ensures Refers(h, TagPointer(nil)) && IsNil(h, TagPointer(nil))
    ensures Refers(h, TagInteger(i)) && IsSome(h, TagInteger(i))
    ensures IsSmallReal(TagReal(bits)) ==> IsSome(h, TagReal(bits))
  {
    PointersAreKept(nil, 0);
    IntegersAreKept(i, 0);
    ClassesAreDisjoint(TagPointer(nil));
  }

  /** The objects' own `equal`. */
  ghost predicate EqualObjects(a: Object, b: Object) {
    match a
    case NilObject => b == NilObject
    case RealObject(x) => HoldsReal(b) && EqualDouble(Decode(x), Decode(b.bits))
    case SmallRealObject(x) => HoldsReal(b) && EqualDouble(Decode(x), Decode(b.bits))
    case _ => HoldsInteger(b) && IntegerIn(a) == IntegerIn(b)
  }

  predicate HoldsReal(o: Object) {
    o.RealObject? || o.SmallRealObject?
  }

  predicate HoldsInteger(o: Object) {
    o.IntegerObject? || o.SmallIntegerObject?
  }

  function IntegerIn(o: Object): int
    requires HoldsInteger(o)
  {
    if o.IntegerObject? then o.n else o.i
  }

  ghost predicate EqualWords(h: memory, a: u64, b: u64)
    requires Refers(h, a) && Refers(h, b)
  {
    if IsSmallInt(a) then
      if IsSmallInt(b) then AsInteger(a) == AsInteger(b)
      else if IsSmallReal(b) then EqualDouble(ToDouble(AsInteger(a)), Decode(b))
      else EqualObjects(h[AsPointer(b)], SmallIntegerObject(AsInteger(a)))
    else if IsSmallReal(a) then
      if IsSmallInt(b) then EqualDouble(Decode(a), ToDouble(AsInteger(b)))
      else if IsSmallReal(b) then EqualDouble(Decode(a), Decode(b))
      else EqualObjects(h[AsPointer(b)], SmallRealObject(a))
    else if IsSmallInt(b) then EqualObjects(h[AsPointer(a)], SmallIntegerObject(AsInteger(b)))
    else if IsSmallReal(b) then EqualObjects(h[AsPointer(a)], SmallRealObject(b))
    else EqualObjects(h[AsPointer(a)], h[AsPointer(b)])
  }

  /** `(r < l) - (l < r)` */
  function Difference(greater: bool, less: bool): int {
    (if greater then 1 else 0) - (if less then 1 else 0)
  }

  /** A number as the built-in operators see it. */
  datatype Number = Integer(n: i64) | Real(d: Double)

  /** The built-in `<`: an integer and a real are compared as reals. */
  ghost predicate Less(a: Number, b: Number) {
    if a.Integer? && b.Integer? then a.n < b.n else LessDouble(AsDouble(a), AsDouble(b))
  }

  ghost function AsDouble(a: Number): Double {
    if a.Integer? then ToDouble(a.n) else a.d
  }

  ghost function NumberIn(o: Object): Number
    requires o != NilObject
  {
    if HoldsReal(o) then Real(Decode(o.bits)) else Integer(IntegerIn(o))
  }

  /** The objects' own `compare`: nil comes before all others, and numbers cannot be compared to it. */
  ghost function CompareObjects(a: Object, b: Object): Option<int> {
    if a == NilObject then Some(if b == NilObject then 0 else -1)
    else if b == NilObject then None
    else Some(Difference(Less(NumberIn(b), NumberIn(a)), Less(NumberIn(a), NumberIn(b))))
  }

  ghost function CompareWords(h: memory, a: u64, b: u64): Option<int>
    requires Refers(h, a) && Refers(h, b)
  {
    if IsSmallInt(a) then
      if IsSmallInt(b) then
        var l, r := AsInteger(a), AsInteger(b); Some(Difference(r < l, l < r))
      else if IsSmallReal(b) then
        var l, r := ToDouble(AsInteger(a)), Decode(b); Some(Difference(LessDouble(r, l), LessDouble(l, r)))
      else CompareObjects(SmallIntegerObject(AsInteger(a)), h[AsPointer(b)])
    else if IsSmallReal(a) then
      if IsSmallReal(b) then
        var l, r := Decode(a), Decode(b); Some(Difference(LessDouble(r, l), LessDouble(l, r)))
      else if IsSmallInt(b) then
        var l, r := Decode(a), ToDouble(AsInteger(b)); Some(Difference(LessDouble(r, l), LessDouble(l, r)))
      else CompareObjects(SmallRealObject(a), h[AsPointer(b)])
    else if IsSmallInt(b) then CompareObjects(h[AsPointer(a)], SmallIntegerObject(AsInteger(b)))
    else if IsSmallReal(b) then CompareObjects(h[AsPointer(a)], SmallRealObject(b))
    else CompareObjects(h[AsPointer(a)], h[AsPointer(b)])
  }

  // ---------------------------------------------------------------------------------------------
  // Numbers compare as numbers, wherever they are kept
  // ---------------------------------------------------------------------------------------------

  ghost predicate IsNumber(h: memory, w: u64) {
    IsSmallInt(w) || IsSmallReal(w) || (IsPointer(w) && AsPointer(w) in h && h[AsPointer(w)] != NilObject)
  }

  ghost function NumberOf(h: memory, w: u64): Number
    requires IsNumber(h, w)
  {
    if IsSmallInt(w) then Integer(AsInteger(w))
    else if IsSmallReal(w) then Real(Decode(w))
    else NumberIn(h[AsPointer(w)])
  }

  ghost predicate IsNotANumber(a: Number) {
    a.Real? && a.d == NaN
  }

  ghost predicate AtMost(h: memory, a: u64, b: u64)
    requires IsNumber(h, a) && IsNumber(h, b)
  {
    CompareWords(h, a, b).value <= 0
  }

  lemma CompareIsNumeric(h: memory, a: u64, b: u64)
    requires IsNumber(h, a) && IsNumber(h, b)
    ensures var x, y := NumberOf(h, a), NumberOf(h, b);
            CompareWords(h, a, b) == Some(Difference(Less(y, x), Less(x, y)))
  {}

  /** Integers compare as integers, wherever they are kept: -1 for less and 1 for greater. */
  lemma IntegersCompareAsIntegers(h: memory, a: u64, b: u64)
    requires IsNumber(h, a) && IsNumber(h, b) && NumberOf(h, a).Integer? && NumberOf(h, b).Integer?
    ensures CompareWords(h, a, b) == Some(-1) <==> NumberOf(h, a).n < NumberOf(h, b).n
    ensures CompareWords(h, a, b) == Some(1) <==> NumberOf(h, a).n > NumberOf(h, b).n
    ensures EqualWords(h, a, b) <==> NumberOf(h, a).n == NumberOf(h, b).n
  {
    CompareIsNumeric(h, a, b);
    EqualIsNumeric(h, a, b);
  }

  /** Inline reals compare by their bits, and NaN is no different from anything. */
  lemma RealsCompareAsWords(h: memory, w: u64, v: u64)
    requires IsSmallReal(w) && IsSmallReal(v)
    ensures CompareWords(h, w, v)
            == Some(if LessByBits(w, v) then -1 else if LessByBits(v, w) then 1 else 0)
  {
    ClassesAreDisjoint(w);
    ClassesAreDisjoint(v);
    DoublesCompareAsWords(w, v);
    DoublesCompareAsWords(v, w);
  }

  predicate LessByBits(w: u64, v: u64) {
    !IsNaN(w) && !IsNaN(v)
    && if IsNegative(w) then (if IsNegative(v) then v < w else !(w == MINUS_ZERO && v == 0))
       else !IsNegative(v) && w < v
  }

  lemma LessIsAsymmetric(x: Number, y: Number)
    ensures Less(x, y) ==> !Less(y, x)
  {}

  /** Swapping the operands negates the result. */
  lemma CompareIsAntisymmetric(h: memory, a: u64, b: u64)
    requires IsNumber(h, a) && IsNumber(h, b)
    ensures CompareWords(h, b, a) == Some(-CompareWords(h, a, b).value)
    ensures AtMost(h, a, b) || AtMost(h, b, a)
  {
    CompareIsNumeric(h, a, b);
    CompareIsNumeric(h, b, a);
    LessIsAsymmetric(NumberOf(h, a), NumberOf(h, b));
  }

  /** Neither is less than the other. */
  lemma NeitherIsLessIff(x: Number, y: Number)
    ensures !Less(x, y) && !Less(y, x)
            <==> IsNotANumber(x) || IsNotANumber(y)
                 || (if x.Integer? && y.Integer? then x.n == y.n else AsDouble(x) == AsDouble(y))
  {}

  /** An integer and a real are never equal when one is kept in an object, even where `compare` finds no difference. */
  ghost predicate ObjectMeetsOtherKind(h: memory, a: u64, b: u64)
    requires IsNumber(h, a) && IsNumber(h, b)
  {
    (IsPointer(a) || IsPointer(b)) && NumberOf(h, a).Integer? != NumberOf(h, b).Integer?
  }

  lemma EqualIsNumeric(h: memory, a: u64, b: u64)
    requires IsNumber(h, a) && IsNumber(h, b)
    ensures var x, y := NumberOf(h, a), NumberOf(h, b);
            EqualWords(h, a, b)
            <==> !ObjectMeetsOtherKind(h, a, b) && !IsNotANumber(x) && !IsNotANumber(y)
                 && if x.Integer? && y.Integer? then x.n == y.n else AsDouble(x) == AsDouble(y)
  {
    ClassesAreDisjoint(a);
    ClassesAreDisjoint(b);
  }

  /** Nil equals nil and nothing else that is referred to. */
  lemma OnlyNilEqualsNil(h: memory, a: u64, b: u64)
    requires Refers(h, a) && Refers(h, b)
    ensures IsNil(h, a) || IsNil(h, b) ==> (EqualWords(h, a, b) <==> IsNil(h, a) && IsNil(h, b))
  {}

  /** Nil comes before everything else, and nothing but nil can be compared to it. */
  lemma CompareWithNil(h: memory, a: u64, b: u64)
    requires Refers(h, a) && Refers(h, b) && (IsNil(h, a) || IsNil(h, b))
    ensures CompareWords(h, a, b) == if !IsNil(h, a) then None else if IsNil(h, b) then Some(0) else Some(-1)
  {}

  lemma EqualIsSymmetric(h: memory, a: u64, b: u64)
    requires Refers(h, a) && Refers(h, b)
    ensures EqualWords(h, a, b) <==> EqualWords(h, b, a)
  {}

  /** Everything but NaN equals itself. */
  lemma EqualIsReflexiveIff(h: memory, a: u64)
    requires Refers(h, a)
    ensures EqualWords(h, a, a) <==> !(IsNumber(h, a) && IsNotANumber(NumberOf(h, a)))
  {}

  lemma EqualNumbersAreTransitive(h: memory, a: u64, b: u64, c: u64)
    requires IsNumber(h, a) && IsNumber(h, b) && IsNumber(h, c) && EqualWords(h, a, b) && EqualWords(h, b, c)
    ensures EqualWords(h, a, c) <==> !ObjectMeetsOtherKind(h, a, c)
  {
    EqualIsNumeric(h, a, b);
    EqualIsNumeric(h, b, c);
    EqualIsNumeric(h, a, c);
    var x, z := NumberOf(h, a), NumberOf(h, c);
    if x.Integer? && z.Integer? && NumberOf(h, b).Real? {
      ClassesAreDisjoint(a);
      ClassesAreDisjoint(b);
      ClassesAreDisjoint(c);
      SmallIntegersAreExact(x.n);
      SmallIntegersAreExact(z.n);
      ToDoubleKeepsOrder(x.n, z.n);
    }
  }

  /** Equality is transitive unless an integer and a real meet of which one is kept in an object. */
  lemma EqualIsTransitiveIff(h: memory, a: u64, b: u64, c: u64)
    requires Refers(h, a) && Refers(h, b) && Refers(h, c) && EqualWords(h, a, b) && EqualWords(h, b, c)
    ensures EqualWords(h, a, c) <==> !(IsNumber(h, a) && IsNumber(h, c) && ObjectMeetsOtherKind(h, a, c))
  {
    ClassesAreDisjoint(a);
    ClassesAreDisjoint(b);
    ClassesAreDisjoint(c);
    if IsNil(h, b) {
      OnlyNilEqualsNil(h, a, b);
      OnlyNilEqualsNil(h, b, c);
      OnlyNilEqualsNil(h, a, c);
    } else {
      OnlyNilEqualsNil(h, a, b);
      OnlyNilEqualsNil(h, b, c);
      EqualNumbersAreTransitive(h, a, b, c);
    }
  }

  /** Where `compare` finds no difference, the numbers are equal, except for NaNs and for an
    integer and a real of which one is kept in an object. */
  lemma CompareAgreesWithEqualIff(h: memory, a: u64, b: u64)
    requires IsNumber(h, a) && IsNumber(h, b)
    ensures var x, y := NumberOf(h, a), NumberOf(h, b);
            (CompareWords(h, a, b) == Some(0) <==> EqualWords(h, a, b))
            <==> !IsNotANumber(x) && !IsNotANumber(y)
                 && (ObjectMeetsOtherKind(h, a, b) ==> AsDouble(x) != AsDouble(y))
  {
    var x, y := NumberOf(h, a), NumberOf(h, b);
    CompareIsNumeric(h, a, b);
    EqualIsNumeric(h, a, b);
    NeitherIsLessIff(x, y);
    LessIsAsymmetric(x, y);
    ClassesAreDisjoint(a);
    ClassesAreDisjoint(b);
  }

  // ---------------------------------------------------------------------------------------------
  // Transitivity
  // ---------------------------------------------------------------------------------------------

  /** What comes between two numbers although they are in the other order. */
  ghost predicate Confuses(x: Number, y: Number, z: Number) {
    IsNotANumber(y)
    || (x.Integer? && z.Integer? && y.Real? && AsDouble(x) == AsDouble(y) == AsDouble(z))
  }

  lemma LessIntegersRoundInOrder(x: Number, y: Number)
    requires x.Integer? && y.Integer? && !Less(y, x)
    ensures !LessDouble(AsDouble(y), AsDouble(x))
  {
    ToDoubleKeepsOrder(x.n, y.n);
  }

  lemma NotLessAsDoubles(x: Number, y: Number)
    requires !Less(y, x)
    ensures !LessDouble(AsDouble(y), AsDouble(x))
  {
    if x.Integer? && y.Integer? {
      LessIntegersRoundInOrder(x, y);
    }
  }

  lemma NotLessIsTransitiveUnlessConfused(x: Number, y: Number, z: Number)
    requires !Less(y, x) && !Less(z, y)
    ensures Less(z, x) ==> Confuses(x, y, z)
  {
    if Less(z, x) && !IsNotANumber(y) {
      NotLessAsDoubles(x, y);
      NotLessAsDoubles(y, z);
      if x.Integer? && z.Integer? {
        NotLessAsDoubles(z, x);
      }
    }
  }

  /** A NaN, or a real to which two different integers round, stands between numbers in the wrong order; nothing else does. */
  lemma CompareIsTransitiveUnlessConfused(h: memory, a: u64, b: u64, c: u64)
    requires IsNumber(h, a) && IsNumber(h, b) && IsNumber(h, c) && !AtMost(h, a, c)
    ensures AtMost(h, a, b) && AtMost(h, b, c) <==> Confuses(NumberOf(h, a), NumberOf(h, b), NumberOf(h, c))
  {
    var x, y, z := NumberOf(h, a), NumberOf(h, b), NumberOf(h, c);
    CompareIsNumeric(h, a, b);
    CompareIsNumeric(h, b, c);
    CompareIsNumeric(h, a, c);
    LessIsAsymmetric(x, y);
    LessIsAsymmetric(y, z);
    LessIsAsymmetric(x, z);
    if AtMost(h, a, b) && AtMost(h, b, c) {
      NotLessIsTransitiveUnlessConfused(x, y, z);
    }
  }

  /** Inline numbers other than NaN are in a total preorder, and what is not ordered is equal. */
  lemma InlineNumbersAreOrdered(h: memory, a: u64, b: u64, c: u64)
    requires forall w :: w in {a, b, c} ==> IsSmallInt(w) || (IsSmallReal(w) && !IsNaN(w))
    ensures AtMost(h, a, b) || AtMost(h, b, a)
    ensures AtMost(h, a, b) && AtMost(h, b, c) ==> AtMost(h, a, c)
    ensures AtMost(h, a, b) && AtMost(h, b, a) <==> EqualWords(h, a, b)
  {
    assert a in {a, b, c} && b in {a, b, c} && c in {a, b, c};
    CompareIsAntisymmetric(h, a, b);
    CompareAgreesWithEqualIff(h, a, b);
    var x, z := NumberOf(h, a), NumberOf(h, c);
    if !AtMost(h, a, c) {
      CompareIsTransitiveUnlessConfused(h, a, b, c);
      CompareIsNumeric(h, a, c);
      if x.Integer? && z.Integer? {
        ToDoubleKeepsOrder(x.n, z.n);
        SmallIntegersAreExact(x.n);
        SmallIntegersAreExact(z.n);
      }
    }
  }

  /** 2^53 + 1 and 2^53 are both no different from the real 2^53 for `compare`, but different from each other. */
  lemma LargeIntegersAreConfused()
    ensures var h: memory := map[8 := IntegerObject(TWO_53 + 1), 16 := IntegerObject(TWO_53)];
            var a, b, c := TagPointer(8), 0x4340_0000_0000_0000, TagPointer(16);
            && IsNumber(h, a) && IsNumber(h, b) && IsNumber(h, c)
            && CompareWords(h, a, b) == Some(0) && CompareWords(h, b, c) == Some(0)
            && CompareWords(h, a, c) == Some(1)
  {
    var h: memory := map[8 := IntegerObject(TWO_53 + 1), 16 := IntegerObject(TWO_53)];
    var a, b, c := TagPointer(8), 0x4340_0000_0000_0000, TagPointer(16);
    PointersAreKept(8, a);
    PointersAreKept(16, c);
    RealOfTwo53();
    CompareIsNumeric(h, a, b);
    CompareIsNumeric(h, b, c);
    CompareIsNumeric(h, a, c);
  }

  lemma RealOfTwo53()
    ensures Decode(0x4340_0000_0000_0000) == ToDouble(TWO_53) == ToDouble(TWO_53 + 1)
  {
    IntegersAtTwo53();
    DecodeNormal(0x4340_0000_0000_0000, 1076);
    PowersOfTwo(1074);
  }

  lemma IntegersAtTwo53()
    ensures Rounded(TWO_53 + 1) == TWO_53 && Rounded(TWO_53) == TWO_53
  {
    assert Spacing(TWO_53 + 1) == 2 && Spacing(TWO_53) == 2;
  }

  lemma DecodeNormal(bits: u64, e: nat)
    requires 0 < e == Exponent(bits) < 2047 && Mantissa(bits) == 0 && !IsNegative(bits)
    ensures Decode(bits) == Finite(0x10_0000_0000_0000 * Pow2(e - 1))
  {}

  lemma PowersOfTwo(n: nat)
    ensures 0x10_0000_0000_0000 * Pow2(n + 1) == 0x20_0000_0000_0000 * Pow2(n)
  {}

  // ---------------------------------------------------------------------------------------------
  // Making numbers
  // ---------------------------------------------------------------------------------------------

  /** A reference, whose word is overwritten when it is assigned or reset. */
  class ObjectRef {
    var data: u64

    constructor (nil: address)
      ensures data == TagPointer(nil)
    {
      data := TagPointer(nil);
    }

    /** Refers to the one nil object from then on, whatever else the memory holds. */
    method Reset(nil: address, ghost h: memory)
      modifies this
      ensures data == TagPointer(nil)
      ensures nil in h && h[nil] == NilObject ==> Refers(h, data) && IsNil(h, data) && !IsNumber(h, data)
    {
      data := TagPointer(nil);
      if nil in h && h[nil] == NilObject {
        ResetIsNil(h, nil, 0, 0);
        PointersAreKept(nil, 0);
        ClassesAreDisjoint(data);
      }
    }

    method Assign(rhs: ObjectRef)
      modifies this
      ensures data == old(rhs.data)
    {
      if data == rhs.data {
        return;
      }
      data := rhs.data;
    }

    /** `make_box` of an integer; an integer that does not fit in the word gets an object at a new address. */
    method Box(h: memory, n: i64, at: address) returns (g: memory)
      requires at !in h
      modifies this
      ensures IsNumber(g, data) && NumberOf(g, data) == Integer(n)
      ensures forall p :: p in h ==> p in g && g[p] == h[p]
      ensures IsSmallInt(data) <==> -0x8000_0000 <= n < 0x8000_0000
    {
      if -0x8000_0000 <= n < 0x8000_0000 {
        data := TagInteger(n);
        g := h;
        IntegersAreKept(n, data);
      } else {
        data := TagPointer(at);
        g := h[at as nat := IntegerObject(n)];
        PointersAreKept(at, data);
        ClassesAreDisjoint(data);
      }
    }
  }
}

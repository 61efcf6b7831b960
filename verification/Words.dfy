/**
  Unsigned machine words as integers with explicit wrap-around, and the bit operations the hash code uses.
 */
module Words {

  const TWO_32: int := 0x1_0000_0000
  const TWO_64: int := 0x1_0000_0000_0000_0000

  type byte = x: int | 0 <= x < 0x100
  type u32 = x: int | 0 <= x < TWO_32
  type u64 = x: int | 0 <= x < TWO_64

  /** `immutable_string::npos`, the largest `usize`. */
  const NPOS: u64 := TWO_64 - 1

  function Wrap32(x: int): u32 {
    x % TWO_32
  }

  function Wrap64(x: int): u64 {
    x % TWO_64
  }

  function Pow2(n: nat): (r: nat)
    ensures r > 0
  {
    if n == 0 then 1 else 2 * Pow2(n - 1)
  }

  /** Logical shift right. */
  function Shr(x: nat, n: nat): nat {
    if n == 0 then x else Shr(x / 2, n - 1)
  }

  /** Bitwise exclusive or. */
  function Xor(a: nat, b: nat): nat {
    if a == 0 && b == 0 then 0 else 2 * Xor(a / 2, b / 2) + (a + b) % 2
  }

  function Xor32(a: u32, b: u32): u32 {
    Pow2Of32();
    XorBound(a, b, 32);
    Xor(a, b)
  }

  /** `x ^ (x >> n)` */
  function XorShift(x: u32, n: nat): u32 {
    ShrBound(x, n);
    Xor32(x, Shr(x, n))
  }

  function Times(c: u32, x: u32): u32 {
    Wrap32(c * x)
  }

  /** `(x << r) | (x >> (32 - r))`: the two operands of the `|` have no bit in common. */
  function RotateLeft(x: u32, r: nat): u32
    requires 0 < r < 32
  {
    RotateBound(x, r);
    x % Pow2(32 - r) * Pow2(r) + x / Pow2(32 - r)
  }

  // ---------------------------------------------------------------------------------------------
  // Algebra of the operations
  // ---------------------------------------------------------------------------------------------

  lemma {:induction false} XorBound(a: nat, b: nat, n: nat)
    requires a < Pow2(n) && b < Pow2(n)
    ensures Xor(a, b) < Pow2(n)
  {
    if n > 0 {
      XorBound(a / 2, b / 2, n - 1);
    }
  }

  lemma {:induction false} ShrBound(x: nat, n: nat)
    ensures Shr(x, n) <= x
  {
    if n > 0 {
      ShrBound(x / 2, n - 1);
    }
  }

  lemma {:induction false} ShrIsZero(x: nat, n: nat)
    requires x < Pow2(n)
    ensures Shr(x, n) == 0
  {
    if n > 0 {
      ShrIsZero(x / 2, n - 1);
    }
  }

  lemma {:induction false} ShrShr(x: nat, m: nat, n: nat)
    ensures Shr(Shr(x, m), n) == Shr(x, m + n)
  {
    if m > 0 {
      ShrShr(x / 2, m - 1, n);
    }
  }

  lemma {:induction false} ShrXor(a: nat, b: nat, n: nat)
    ensures Shr(Xor(a, b), n) == Xor(Shr(a, n), Shr(b, n))
  {
    if n > 0 {
      assert Xor(a, b) / 2 == Xor(a / 2, b / 2);
      ShrXor(a / 2, b / 2, n - 1);
    }
  }

  lemma {:induction false} XorCommutes(a: nat, b: nat)
    ensures Xor(a, b) == Xor(b, a)
  {
    if a != 0 || b != 0 {
      XorCommutes(a / 2, b / 2);
    }
  }

  lemma {:induction false} XorZero(a: nat)
    ensures Xor(a, 0) == a
  {
    if a != 0 {
      XorZero(a / 2);
    }
  }

  lemma {:induction false} XorSelf(a: nat)
    ensures Xor(a, a) == 0
  {
    if a != 0 {
      XorSelf(a / 2);
    }
  }

  lemma {:induction false} XorAssociates(a: nat, b: nat, c: nat)
    ensures Xor(Xor(a, b), c) == Xor(a, Xor(b, c))
  {
    if a != 0 || b != 0 || c != 0 {
      var ab, bc := Xor(a, b), Xor(b, c);
      XorHalves(a, b);
      XorHalves(b, c);
      XorHalves(ab, c);
      XorHalves(a, bc);
      XorAssociates(a / 2, b / 2, c / 2);
      ParityAssociates(a, b, c, ab, bc);
      HalvesDetermine(Xor(ab, c), Xor(a, bc));
    }
  }

  lemma XorHalves(a: nat, b: nat)
    ensures Xor(a, b) / 2 == Xor(a / 2, b / 2)
    ensures Xor(a, b) % 2 == (a + b) % 2
  {}

  lemma ParityAssociates(a: nat, b: nat, c: nat, ab: nat, bc: nat)
    requires ab % 2 == (a + b) % 2 && bc % 2 == (b + c) % 2
    ensures (ab + c) % 2 == (a + bc) % 2
  {}

  lemma HalvesDetermine(x: nat, y: nat)
    requires x / 2 == y / 2 && x % 2 == y % 2
    ensures x == y
  {}

  lemma XorCancels(a: nat, b: nat)
    ensures Xor(Xor(a, b), b) == a
    ensures Xor(a, Xor(a, b)) == b
  {
    XorAssociates(a, b, b);
    XorSelf(b);
    XorZero(a);
    XorAssociates(a, a, b);
    XorSelf(a);
    XorCommutes(0, b);
    XorZero(b);
  }

  lemma Pow2Of32()
    ensures Pow2(32) == TWO_32
  {
    assert Pow2(4) == 16;
    Pow2Sum(4, 4);
    Pow2Sum(8, 8);
    Pow2Sum(16, 16);
  }

  lemma RotateBound(x: u32, r: nat)
    requires 0 < r < 32
    ensures x / Pow2(32 - r) < Pow2(r)
    ensures 0 <= x % Pow2(32 - r) * Pow2(r) + x / Pow2(32 - r) < TWO_32
  {
    var p, q := Pow2(r), Pow2(32 - r);
    Pow2Sum(r, 32 - r);
    Pow2Of32();
    SplitBound(x, p, q);
  }

  lemma SplitBound(x: nat, p: nat, q: nat)
    requires p > 0 && q > 0 && x < p * q
    ensures x / q < p && 0 <= x % q * p + x / q < p * q
  {
    var hi, lo := x / q, x % q;
    assert x == hi * q + lo;
    MulMonotone(p, hi, q);
    MulMonotone(q - 1, lo, p);
    assert (q - 1) * p == q * p - p;
  }

  lemma MulMonotone(a: nat, b: nat, c: nat)
    ensures a <= b ==> a * c <= b * c
    ensures b <= a ==> b * c <= a * c
  {
    if a <= b {
      assert b * c == a * c + (b - a) * c;
    } else {
      assert a * c == b * c + (a - b) * c;
    }
  }

  lemma {:induction false} Pow2Sum(m: nat, n: nat)
    ensures Pow2(m) * Pow2(n) == Pow2(m + n)
  {
    if m > 0 {
      Pow2Sum(m - 1, n);
    }
  }

  // ---------------------------------------------------------------------------------------------
  // Every step of a mixer can be undone
  // ---------------------------------------------------------------------------------------------

  lemma RotateLeftIsInvertible(x: u32, r: nat)
    requires 0 < r < 32
    ensures RotateLeft(RotateLeft(x, r), 32 - r) == x
  {
    RotateBound(x, r);
    SwapTwice(x, Pow2(r), Pow2(32 - r));
    assert 32 - (32 - r) == r;
  }

  lemma SwapTwice(x: nat, p: nat, q: nat)
    requires p > 0 && q > 0 && x / q < p
    ensures var y := x % q * p + x / q; y % p * q + y / p == x
  {
    var y := x % q * p + x / q;
    DivModUnique(x % q, x / q, p);
    assert y / p == x % q && y % p == x / q;
    assert x == x / q * q + x % q;
  }

  lemma DivModUnique(a: nat, b: nat, p: nat)
    requires b < p
    ensures (a * p + b) / p == a && (a * p + b) % p == b
  {
    var n := a * p + b;
    var d, m := n / p, n % p;
    assert n == d * p + m;
    MulMonotone(a + 1, d, p);
    MulMonotone(d + 1, a, p);
    assert (a + 1) * p == a * p + p;
    assert (d + 1) * p == d * p + p;
  }

  /** Multipliers that are inverse modulo 2^32 undo each other. */
  lemma TimesIsInvertible(c: u32, d: u32, x: u32)
    requires Wrap32(c * d) == 1
    ensures Times(d, Times(c, x)) == x
  {
    var k, q := c * d / TWO_32, c * x / TWO_32;
    assert c * d == 1 + TWO_32 * k && Times(c, x) == c * x - TWO_32 * q;
    calc {
      d * Times(c, x);
      d * (c * x) - d * (TWO_32 * q);
      { assert d * (c * x) == (c * d) * x; }
      (1 + TWO_32 * k) * x - d * (TWO_32 * q);
      x + TWO_32 * (k * x - d * q);
    }
    WrapMultiple(x, k * x - d * q);
  }

  lemma WrapMultiple(x: u32, t: int)
    ensures Wrap32(x + TWO_32 * t) == x
  {}

  /** Half a word or more: the shift is its own inverse. */
  lemma XorShiftIsInvolution(x: u32, n: nat)
    requires 16 <= n
    ensures XorShift(XorShift(x, n), n) == x
  {
    var s := Shr(x, n);
    ShrXor(x, s, n);
    ShrShr(x, n, n);
    ShrVanishes(x, n + n);
    XorZero(s);
    XorCancels(x, s);
  }

  /** A third of a word or more: two shifts undo one. */
  lemma XorShiftIsInvertible(x: u32, n: nat)
    requires 11 <= n
    ensures var y := XorShift(x, n); Xor(Xor(y, Shr(y, n)), Shr(y, n + n)) == x
  {
    var y, s, t := XorShift(x, n), Shr(x, n), Shr(x, n + n);
    ShrXor(x, s, n);
    ShrShr(x, n, n);
    ShrXor(x, s, n + n);
    ShrShr(x, n, n + n);
    ShrVanishes(x, n + n + n);
    XorZero(t);
    assert Shr(y, n) == Xor(s, t) && Shr(y, n + n) == t;
    XorAssociates(Xor(x, s), Xor(s, t), t);
    XorCancels(s, t);
    XorCancels(x, s);
  }

  lemma XorShiftInverseUndone(y: u32, n: nat)
    requires 11 <= n
    ensures Xor(Xor(y, Shr(y, n)), Shr(y, n + n)) < TWO_32
    ensures XorShift(Xor(Xor(y, Shr(y, n)), Shr(y, n + n)), n) == y
  {
    var s, t := Shr(y, n), Shr(y, n + n);
    ShrBound(y, n);
    ShrBound(y, n + n);
    Pow2Of32();
    XorBound(y, s, 32);
    XorBound(Xor(y, s), t, 32);
    var x := Xor(Xor(y, s), t);
    ShrXor(Xor(y, s), t, n);
    ShrXor(y, s, n);
    ShrShr(y, n, n);
    ShrShr(y, n + n, n);
    ShrVanishes(y, n + n + n);
    XorZero(Xor(s, t));
    assert Shr(x, n) == Xor(s, t);
    XorAssociates(y, s, t);
    XorCancels(y, Xor(s, t));
  }

  lemma ShrVanishes(x: u32, n: nat)
    requires 32 <= n
    ensures Shr(x, n) == 0
  {
    Pow2Of32();
    ShrIsZero(x, 32);
    ShrShr(x, 32, n - 32);
    ShrBound(0, n - 32);
  }
}

/**
  Exclusive or of numbers in hexadecimal, digit by digit, for the few constants that are worked out.
 */
module XorDigits {

  import opened Words

  type bit = x: int | 0 <= x < 2
  type digit = x: int | 0 <= x < 16

  function BitXor(i: bit, j: bit): bit {
    if i == j then 0 else 1
  }

  /** The top bit of a number below `2 * n`, and the rest. */
  function Top(i: nat, n: nat): bit {
    if i < n then 0 else 1
  }

  function Rest(i: nat, n: nat): nat {
    if i < n then i else i - n
  }

  function TwoBitXor(i: nat, j: nat): nat {
    2 * BitXor(Top(i, 2), Top(j, 2)) + if Rest(i, 2) == Rest(j, 2) then 0 else 1
  }

  function DigitXor(i: digit, j: digit): nat {
    8 * BitXor(Top(i, 8), Top(j, 8)) + 4 * BitXor(Top(Rest(i, 8), 4), Top(Rest(j, 8), 4))
    + TwoBitXor(Rest(Rest(i, 8), 4), Rest(Rest(j, 8), 4))
  }

  lemma HalfOf(x: nat, a: nat, i: bit)
    requires x == 2 * a + i
    ensures x / 2 == a && x % 2 == i
  {}

  lemma SumParity(x: nat, y: nat, i: bit, j: bit)
    requires x % 2 == i && y % 2 == j
    ensures (x + y) % 2 == BitXor(i, j)
  {}

  lemma XorBit(x: nat, y: nat, a: nat, b: nat, i: bit, j: bit)
    requires x == 2 * a + i && y == 2 * b + j
    ensures Xor(x, y) == 2 * Xor(a, b) + BitXor(i, j)
  {
    HalfOf(x, a, i);
    HalfOf(y, b, j);
    XorHalves(x, y);
    SumParity(x, y, i, j);
    HalfOf(2 * Xor(a, b) + BitXor(i, j), Xor(a, b), BitXor(i, j));
    HalvesDetermine(Xor(x, y), 2 * Xor(a, b) + BitXor(i, j));
  }

  lemma XorTwoBits(x: nat, y: nat, a: nat, b: nat, i1: bit, i0: bit, j1: bit, j0: bit)
    requires x == 4 * a + 2 * i1 + i0 && y == 4 * b + 2 * j1 + j0
    ensures Xor(x, y) == 4 * Xor(a, b) + 2 * BitXor(i1, j1) + BitXor(i0, j0)
  {
    var u, v := 2 * a + i1, 2 * b + j1;
    XorBit(u, v, a, b, i1, j1);
    XorBit(x, y, u, v, i0, j0);
  }

  lemma XorFourBits(x: nat, y: nat, a: nat, b: nat,
                    i3: bit, i2: bit, i1: bit, i0: bit, j3: bit, j2: bit, j1: bit, j0: bit)
    requires x == 16 * a + 8 * i3 + 4 * i2 + 2 * i1 + i0
    requires y == 16 * b + 8 * j3 + 4 * j2 + 2 * j1 + j0
    ensures Xor(x, y) == 16 * Xor(a, b) + 8 * BitXor(i3, j3) + 4 * BitXor(i2, j2) + 2 * BitXor(i1, j1) + BitXor(i0, j0)
  {
    var u, v := 4 * a + 2 * i3 + i2, 4 * b + 2 * j3 + j2;
    XorTwoBits(u, v, a, b, i3, i2, j3, j2);
    XorTwoBits(x, y, u, v, i1, i0, j1, j0);
  }

  lemma BitsOf(i: digit) returns (i3: bit, i2: bit, i1: bit, i0: bit)
    ensures i == 8 * i3 + 4 * i2 + 2 * i1 + i0
  {
    var r := Rest(Rest(i, 8), 4);
    i3, i2, i1, i0 := Top(i, 8), Top(Rest(i, 8), 4), Top(r, 2), Rest(r, 2);
  }

  lemma DigitXorOfBits(i: digit, j: digit, i3: bit, i2: bit, i1: bit, i0: bit, j3: bit, j2: bit, j1: bit, j0: bit)
    requires i == 8 * i3 + 4 * i2 + 2 * i1 + i0 && j == 8 * j3 + 4 * j2 + 2 * j1 + j0
    ensures DigitXor(i, j) == 8 * BitXor(i3, j3) + 4 * BitXor(i2, j2) + 2 * BitXor(i1, j1) + BitXor(i0, j0)
  {
    TopAndRest(i, 8, i3, 4 * i2 + 2 * i1 + i0);
    TopAndRest(j, 8, j3, 4 * j2 + 2 * j1 + j0);
    TopAndRest(Rest(i, 8), 4, i2, 2 * i1 + i0);
    TopAndRest(Rest(j, 8), 4, j2, 2 * j1 + j0);
    TopAndRest(2 * i1 + i0, 2, i1, i0);
    TopAndRest(2 * j1 + j0, 2, j1, j0);
  }

  lemma TopAndRest(i: nat, n: nat, top: bit, rest: nat)
    requires i == n * top + rest && rest < n
    ensures Top(i, n) == top && Rest(i, n) == rest
  {}

  lemma XorDigit(x: nat, y: nat, a: nat, b: nat, i: digit, j: digit)
    requires x == 16 * a + i && y == 16 * b + j
    ensures Xor(x, y) == 16 * Xor(a, b) + DigitXor(i, j)
  {
    var i3, i2, i1, i0 := BitsOf(i);
    var j3, j2, j1, j0 := BitsOf(j);
    DigitXorOfBits(i, j, i3, i2, i1, i0, j3, j2, j1, j0);
    XorFourBits(x, y, a, b, i3, i2, i1, i0, j3, j2, j1, j0);
  }

  /** The last five digits of an exclusive or with a number of no more. */
  lemma XorLastFive(x: nat, y: nat, a: nat, i4: digit, i3: digit, i2: digit, i1: digit, i0: digit,
                    j4: digit, j3: digit, j2: digit, j1: digit, j0: digit)
    requires x == 0x10_0000 * a + 0x1_0000 * i4 + 0x1000 * i3 + 0x100 * i2 + 0x10 * i1 + i0
    requires y == 0x1_0000 * j4 + 0x1000 * j3 + 0x100 * j2 + 0x10 * j1 + j0
    ensures Xor(x, y) == 0x10_0000 * a + 0x1_0000 * DigitXor(i4, j4) + 0x1000 * DigitXor(i3, j3)
                         + 0x100 * DigitXor(i2, j2) + 0x10 * DigitXor(i1, j1) + DigitXor(i0, j0)
  {
    var x4, y4 := 16 * a + i4, j4;
    var x3, y3 := 16 * x4 + i3, 16 * y4 + j3;
    var x2, y2 := 16 * x3 + i2, 16 * y3 + j2;
    var x1, y1 := 16 * x2 + i1, 16 * y2 + j1;
    XorZero(a);
    XorDigit(x4, y4, a, 0, i4, j4);
    XorDigit(x3, y3, x4, y4, i3, j3);
    XorDigit(x2, y2, x3, y3, i2, j2);
    XorDigit(x1, y1, x2, y2, i1, j1);
    XorDigit(x, y, x1, y1, i0, j0);
  }
}

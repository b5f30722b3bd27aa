/** Bit operations on natural numbers, as the C operators `&`, `|`, `<<` and the
    macros built from them act on unsigned operands. */
module Bits {

  function Pow2(k: nat): (p: nat)
    ensures p > 0
  {
    if k == 0 then 1 else 2 * Pow2(k - 1)
  }

  function Power(b: nat, e: nat): nat { if e == 0 then 1 else b * Power(b, e - 1) }

  function And(x: nat, y: nat): nat
    decreases x
  {
    if x == 0 then 0
    else (if x % 2 == 1 && y % 2 == 1 then 1 else 0) + 2 * And(x / 2, y / 2)
  }

  function Or(x: nat, y: nat): nat
    decreases x + y
  {
    if x + y == 0 then 0
    else (if x % 2 == 1 || y % 2 == 1 then 1 else 0) + 2 * Or(x / 2, y / 2)
  }

  /** Position of the highest set bit plus one; 0 for 0 (`bit_length`). */
  function BitLength(x: nat): nat
  {
    if x == 0 then 0 else 1 + BitLength(x / 2)
  }

  /** The macro `POW2_P`. */
  predicate IsPow2(x: nat)
  {
    x == 0 || And(x, x - 1) == 0
  }

  lemma {:induction false} Pow2Add(j: nat, k: nat)
    ensures Pow2(j + k) == Pow2(j) * Pow2(k)
  {
    if j != 0 {
      Pow2Add(j - 1, k);
      calc {
        Pow2(j) * Pow2(k);
        2 * Pow2(j - 1) * Pow2(k);
        2 * (Pow2(j - 1) * Pow2(k));
      }
    }
  }

  lemma PowZero()
    ensures Pow2(0) == 1
  {}

  lemma Associate(a: int, b: int, c: int)
    ensures a * (b * c) == (a * b) * c
  {}

  lemma Timeless(x: int)
    ensures x * 0 == 0
  {}

  lemma ZeroMod(p: nat)
    requires p > 0
    ensures 0 % p == 0
  {}

  lemma Pow2Values()
    ensures Pow2(8) == 0x100 && Pow2(31) == 0x8000_0000 && Pow2(32) == 0x1_0000_0000
  {
    assert Pow2(4) == 16;
    Pow2Add(4, 4);
    Pow2Add(8, 8);
    Pow2Add(16, 16);
  }

  lemma SixtyFour()
    ensures Pow2(64) == 0x1_0000_0000_0000_0000
  {
    Pow2Values();
    Pow2Add(32, 32);
  }

  lemma Pow2Monotone(j: nat, k: nat)
    requires j <= k
    ensures Pow2(j) <= Pow2(k)
    decreases k
  {
    if j < k { Pow2Monotone(j, k - 1); }
  }

  /** `|` of a number below 2^k and a multiple of 2^k is their sum. */
  lemma {:induction false} OrIsSum(x: nat, y: nat, k: nat)
    requires x < Pow2(k)
    ensures Or(x, y * Pow2(k)) == x + y * Pow2(k)
    decreases k
  {
    hide Or;
    if k == 0 {
      OrZeroLeft(y);
    } else {
      TwiceInside(y, Pow2(k - 1));
      OrIsSum(x / 2, y, k - 1);
      OrEven(x, y * Pow2(k - 1));
    }
  }

  lemma TwiceInside(y: nat, q: nat)
    ensures y * (2 * q) == 2 * (y * q)
  {}

  lemma OrStep(x: nat, y: nat)
    ensures Or(x, y) == (if x % 2 == 1 || y % 2 == 1 then 1 else 0) + 2 * Or(x / 2, y / 2)
  {}

  lemma OrEven(x: nat, h: nat)
    ensures Or(x, 2 * h) == x % 2 + 2 * Or(x / 2, h)
  {
    hide Or;
    OrStep(x, 2 * h);
    assert (2 * h) % 2 == 0 && (2 * h) / 2 == h;
  }

  lemma {:induction false} OrZeroLeft(y: nat)
    ensures Or(0, y) == y
  {
    if y != 0 { OrZeroLeft(y / 2); }
  }

  /** Masking with 2^k - 1 is the remainder modulo 2^k. */
  lemma {:induction false} AndMask(x: nat, k: nat)
    ensures And(x, Pow2(k) - 1) == x % Pow2(k)
    decreases k
  {
    if k == 0 {
      AndZero(x);
    } else if x != 0 {
      var m := Pow2(k - 1);
      assert (Pow2(k) - 1) % 2 == 1 && (Pow2(k) - 1) / 2 == m - 1;
      AndMask(x / 2, k - 1);
      ModTwice(x, m);
    }
  }

  lemma {:induction false} AndZero(x: nat)
    ensures And(x, 0) == 0
  {
    if x != 0 { AndZero(x / 2); }
  }

  lemma ModTwice(x: nat, m: nat)
    requires m > 0
    ensures x % (2 * m) == x % 2 + 2 * ((x / 2) % m)
  {
    var q, r := (x / 2) / m, (x / 2) % m;
    assert x / 2 == q * m + r;
    assert x == q * (2 * m) + (x % 2 + 2 * r);
    DivModUnique(x, 2 * m, q, x % 2 + 2 * r);
  }

  lemma DivModUnique(x: int, d: int, q: int, r: int)
    requires d > 0 && 0 <= r < d && x == q * d + r
    ensures x / d == q && x % d == r
  {
    var q', r' := x / d, x % d;
    assert x == q' * d + r';
    assert (q - q') * d == r' - r;
    assert q - q' >= 1 ==> (q - q') * d >= d;
    assert q - q' <= -1 ==> (q - q') * d <= -d;
  }

  lemma DivSmaller(x: int, p: int)
    requires 0 <= x && 0 < p
    ensures 0 <= x / p <= x
  {
    QuotientBounds(x, p, x / p, x % p);
  }

  lemma QuotientBounds(x: int, p: int, q: int, r: int)
    requires 0 <= x && 0 < p && x == q * p + r && 0 <= r < p
    ensures 0 <= q <= x
  {
    assert q <= -1 ==> q * p <= -p;
    assert q >= 0 ==> q * p >= q;
  }

  lemma {:induction false} BitLengthBounds(x: nat)
    requires x > 0
    ensures BitLength(x) > 0
    ensures Pow2(BitLength(x) - 1) <= x < Pow2(BitLength(x))
  {
    if x / 2 > 0 { BitLengthBounds(x / 2); }
  }

  lemma {:induction false} BitLengthLe(x: nat, k: nat)
    requires x < Pow2(k)
    ensures BitLength(x) <= k
    decreases k
  {
    if x != 0 { BitLengthLe(x / 2, k - 1); }
  }

  /** A nonzero `POW2_P` number is the power of two its bit length names. */
  lemma {:induction false} IsPow2Value(x: nat)
    requires x > 0 && IsPow2(x)
    ensures BitLength(x) > 0 && x == Pow2(BitLength(x) - 1)
  {
    if x % 2 == 0 {
      assert (x - 1) % 2 == 1 && (x - 1) / 2 == x / 2 - 1;
      IsPow2Value(x / 2);
    } else if x > 1 {
      assert (x - 1) / 2 == x / 2;
      AndSelf(x / 2);
      assert false;
    }
  }

  lemma {:induction false} AndSelf(x: nat)
    ensures And(x, x) == x
  {
    if x != 0 { AndSelf(x / 2); }
  }
}

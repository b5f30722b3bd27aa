/**
 * How many digits a packed integer takes, in arithmetic of 64 bits.
 */
module PackSize {
  import opened Digits
  import opened PackFormat

  const SIZE_MAX: nat := 0xFFFF_FFFF_FFFF_FFFF
  const SSIZE_MAX: nat := 0x7FFF_FFFF_FFFF_FFFF

  /** Variables of type `size_t`; where nothing else is said, no result is cut off. */
  type SizeT = x: int | 0 <= x <= 0xFFFF_FFFF_FFFF_FFFF

  /** What `size_t` arithmetic makes of a result. */
  function Wrap(x: int): SizeT { x % 0x1_0000_0000_0000_0000 }

  /** The sizes `validate_integer_pack_format` lets through. */
  predicate Sized(f: Format)
  {
    f.Valid() && f.wordsize <= SSIZE_MAX && f.nails <= SIZE_MAX && f.numwords * f.wordsize <= SIZE_MAX
  }

  /** The digits, and the bits of them that are left over. */
  predicate Holds(f: Format, num: nat, nlpBits: nat)
    requires f.Valid()
  {
    32 * num == f.TotalBits() + nlpBits && nlpBits < 32
  }

  /** That is the number of bits divided by 32 and rounded up. */
  lemma Ceiling(f: Format, num: nat, nlpBits: nat)
    requires f.Valid()
    ensures Holds(f, num, nlpBits) <==> num == (f.TotalBits() + 31) / 32 && nlpBits == 32 * num - f.TotalBits()
  {}

  /** `integer_unpack_num_bdigits_small`.  Only for no words at all may a step be cut off. */
  method NumBdigitsSmall(f: Format) returns (num: SizeT, nlpBits: nat)
    requires Sized(f) && f.numwords <= (SIZE_MAX - 31) / 8 / f.wordsize
    ensures Holds(f, num, nlpBits)
  {
    SmallBits(f);
    var numBits := Wrap((Wrap(Wrap(f.wordsize * 8) - f.nails)) as int * f.numwords);
    num := (numBits + 31) / 32;
    nlpBits := 32 * num - numBits;
  }

  lemma SmallBits(f: Format)
    requires Sized(f) && f.numwords <= (SIZE_MAX - 31) / 8 / f.wordsize
    ensures f.TotalBits() <= SIZE_MAX - 31
    ensures Wrap((Wrap(Wrap(f.wordsize * 8) - f.nails)) as int * f.numwords) == f.TotalBits()
    ensures f.numwords > 0 ==> 0 <= f.wordsize * 8 - f.nails <= f.wordsize * 8 <= SIZE_MAX
  {
    WordBitsAre(f);
    if f.numwords == 0 {
      hide Wrap;
      NoProduct(f.WordBits());
      NoProduct(Wrap(Wrap(f.wordsize * 8) - f.nails));
      WrapSmall(0);
    } else {
      var q := (SIZE_MAX - 31) / 8;
      Quotient(q, f.wordsize, f.numwords);
      hide Format.WordBits, Wrap;
      BitsBound(f.wordsize, f.numwords, f.WordBits(), q);
      WrapSmall(f.wordsize * 8);
      WrapSmall(f.WordBits());
      WrapSmall(f.TotalBits());
    }
  }

  lemma WrapSmall(x: int)
    requires 0 <= x <= SIZE_MAX
    ensures Wrap(x) == x
  {}

  lemma BitsBound(w: nat, n: nat, b: nat, q: nat)
    requires n > 0 && n * w <= q && b <= 8 * w
    ensures w <= q && 0 <= n * b <= 8 * q && n * b == b * n
  {
    MulMonotone(1, n, w);
    MulMonotone(b, 8 * w, n);
    assert (8 * w) * n == 8 * (n * w);
  }

  lemma NoProduct(x: int)
    ensures x * 0 == 0 * x == 0
  {}

  lemma Quotient(q: nat, d: nat, n: nat)
    requires d > 0 && n <= q / d
    ensures n * d <= q
  {
    var k := q / d;
    assert k * d <= q;
    MulMonotone(n, k, d);
  }

  /** `integer_unpack_num_bdigits_generic`: no step is cut off. */
  method NumBdigitsGeneric(f: Format) returns (num: SizeT, nlpBits: nat)
    requires Sized(f)
    ensures Holds(f, num, nlpBits)
  {
    hide Format.TotalBits;
    MulMonotone(1, f.wordsize, f.numwords);
    var numBytes1: SizeT := f.wordsize * f.numwords;
    var q1: SizeT, r1: SizeT := f.numwords / 8, f.numwords % 8;
    Step2(f, q1, r1);
    var numBytes2: SizeT := numBytes1 - f.nails * q1;
    var q2: SizeT, r2: SizeT := f.nails / 8, f.nails % 8;
    Step3(f, q1, r1, q2, r2);
    var numBytes3: SizeT := numBytes2 - q2 * r1;
    SmallProduct(r1, r2);
    num, nlpBits := LastSteps(numBytes3, r1 * r2, f.TotalBits());
  }

  /** From 8 * numBytes3 - lost bits to digits. */
  method LastSteps(numBytes3: SizeT, lost: SizeT, ghost total: nat) returns (num: SizeT, nlpBits: nat)
    requires total == 8 * numBytes3 as int - lost && lost <= 49
    ensures 32 * num == total + nlpBits && nlpBits < 32
  {
    var q3: SizeT := numBytes3 / 32;
    var r3: SizeT := numBytes3 % 32;
    var numDigits1: SizeT := 8 * q3;
    if 8 * r3 >= lost {
      var tmp1: SizeT := 8 * 32 - (8 * r3 - lost);
      var q4: SizeT := tmp1 / 32;
      num := numDigits1 + 8 - q4;
      nlpBits := tmp1 % 32;
    } else {
      var tmp1: SizeT := lost - 8 * r3;
      var q4: SizeT := tmp1 / 32;
      num := numDigits1 - q4;
      nlpBits := tmp1 % 32;
    }
  }

  lemma SmallProduct(a: nat, b: nat)
    requires a < 8 && b < 8
    ensures 0 <= a * b <= 49
  {
    MulMonotone(a, 7, b);
  }

  /** The bytes, less those that eight words lose to nails. */
  lemma Step2(f: Format, q1: nat, r1: nat)
    requires Sized(f) && f.numwords == 8 * q1 + r1
    ensures 0 <= f.nails * q1 <= f.wordsize * f.numwords && f.numwords <= SIZE_MAX
  {
    WordBitsAre(f);
    BytesBound(f.wordsize, f.nails, q1, r1);
    MulMonotone(1, f.wordsize, f.numwords);
  }

  lemma BytesBound(w: nat, n: nat, q: nat, r: nat)
    requires n < 8 * w
    ensures 0 <= n * q <= w * (8 * q + r)
  {
    MulMonotone(n, 8 * w, q);
    assert w * (8 * q + r) == (8 * w) * q + w * r;
  }

  lemma Step3(f: Format, q1: nat, r1: nat, q2: nat, r2: nat)
    requires Sized(f) && f.numwords == 8 * q1 + r1 && f.nails == 8 * q2 + r2 && r1 < 8 && r2 < 8
    ensures 0 <= q2 * r1 <= f.wordsize * f.numwords - f.nails * q1
    ensures f.TotalBits() == 8 * (f.wordsize * f.numwords - f.nails * q1 - q2 * r1) - r1 * r2
  {
    WordBitsAre(f);
    BytesAlgebra(f.wordsize, f.nails, q1, r1, q2, r2);
  }

  lemma BytesAlgebra(w: nat, n: nat, q1: nat, r1: nat, q2: nat, r2: nat)
    requires n == 8 * q2 + r2 && n < 8 * w && q2 < w
    ensures var bytes3 := w * (8 * q1 + r1) - n * q1 - q2 * r1;
            0 <= bytes3 && 0 <= q2 * r1 && (8 * q1 + r1) * (8 * w - n) == 8 * bytes3 - r1 * r2
  {
    Expand(w, n, q1, r1);
    MulMonotone(q2, w, r1);
    MulMonotone(0, 8 * w - n, q1);
    assert (8 * q2 + r2) * r1 == 8 * (q2 * r1) + r1 * r2;
  }

  lemma Expand(w: int, n: int, q: int, r: int)
    ensures w * (8 * q + r) - n * q == (8 * w - n) * q + w * r
    ensures (8 * q + r) * (8 * w - n) == 8 * (w * (8 * q + r) - n * q) - n * r
  {}

  /** `integer_unpack_num_bdigits`. */
  method NumBdigits(f: Format) returns (num: SizeT, nlpBits: nat)
    requires Sized(f)
    ensures Holds(f, num, nlpBits)
  {
    if f.numwords <= (SIZE_MAX - 31) / 8 / f.wordsize {
      num, nlpBits := NumBdigitsSmall(f);
    } else {
      num, nlpBits := NumBdigitsGeneric(f);
    }
  }
}

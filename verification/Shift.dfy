/** Shifts of digit buffers by less than a digit. */
module Shift {
  import opened Bits
  import opened Digits

  /** The factor 2^s of a shift by fewer than 32 bits. */
  lemma ShiftFactor(s: nat)
    requires s < BITSPERDIG
    ensures 1 <= Pow2(s) <= 0x8000_0000
  {
    Pow2Monotone(s, 31);
    Pow2Values();
  }

  /** One digit is shifted onto what came from the digit below. */
  lemma ShiftDigit(num: nat, d: Digit, shift: nat)
    requires shift < BITSPERDIG && num < Pow2(shift)
    ensures var t := num + Pow2(shift) * d;
            && Or(num, d as int * Pow2(shift)) == t < 0x1_0000_0000_0000_0000 && 0 <= Dn(t) < Pow2(shift)
  {
    hide Pow2, Or;
    var p := Pow2(shift);
    ShiftFactor(shift);
    OrIsSum(num, d, shift);
    MulMonotone(d, 0xFFFF_FFFF, p);
    ShiftBound(num, p * d, p);
  }

  lemma ShiftBound(num: nat, m: nat, p: nat)
    requires num < p <= 0x8000_0000 && m <= 0xFFFF_FFFF * p
    ensures num + m < 0x1_0000_0000_0000_0000 && 0 <= Dn(num + m) < p
  {}

  method LshiftLoop(z: Span, x: Span, shift: nat) returns (num: DDigit)
    requires z.Valid() && x.Valid() && z.len == x.len && z.BehindOf(x) && shift < BITSPERDIG
    modifies z.buf
    ensures var cols := Columns(Pow2(shift), old(x.Digits()), 0, [], z.len);
            num == Carry(cols, 0, z.len) < Pow2(shift) && Emitted(z, cols, 0, z.len)
  {
    hide Columns, Span.Digits, Carry, DigitOf, Pow2, Or, Lo, Dn;
    ghost var xs := x.Digits();
    SpanElements(x);
    ghost var p: int := Pow2(shift);
    ghost var cols := Columns(p, xs, 0, [], z.len);
    ShiftFactor(shift);
    CarryStart(cols, 0);
    num := 0;
    var i := 0;
    while i < x.len
      invariant i <= x.len && num == Carry(cols, 0, i) < p && Emitted(z, cols, 0, i)
    {
      CarryStep(cols, 0, i);
      ShiftDigit(num, xs[i], shift);
      num := Or(num, x.buf[x.off + i] as int * Pow2(shift));
      z.buf[z.off + i] := Lo(num);
      num := Dn(num);
      i := i + 1;
    }
  }

  /** `bary_small_lshift`: x * 2^shift; the result is what leaves the buffer. */
  method SmallLshift(z: Span, x: Span, shift: nat) returns (c: Digit)
    requires z.Valid() && x.Valid() && z.len == x.len && z.BehindOf(x) && shift < BITSPERDIG
    modifies z.buf
    ensures c < Pow2(shift) && z.Value() + Shl(c, z.len) == Pow2(shift) * old(x.Value())
    ensures forall s: Span {:trigger s.Digits()} ::
      old(allocated(s)) && s.Valid() && s.Disjoint(z) ==> s.Digits() == old(s.Digits())
  {
    hide Val, Shl, Columns, Carry, DigitOf, Pow2;
    ghost var xs := x.Digits();
    ShiftFactor(shift);
    var num := LshiftLoop(z, x, shift);
    ColumnsSum(Pow2(shift), xs, 0, [], z.len);
    ColumnValue(z.Digits(), Columns(Pow2(shift), xs, 0, [], z.len), 0);
    c := Lo(num);
  }

  /** The digit above place i, with `higher` standing above the buffer. */
  ghost function Above(xs: seq<Digit>, i: nat, higher: Digit): Digit
    requires i < |xs|
  {
    if i + 1 < |xs| then xs[i + 1] else higher
  }

  method RshiftLoop(z: Span, x: Span, shift: nat, higher: Digit)
    requires z.Valid() && x.Valid() && z.len == x.len && z.AheadOf(x) && shift < BITSPERDIG
    modifies z.buf
    ensures forall j :: 0 <= j < z.buf.Length ==>
              z.buf[j] == if z.off <= j < z.off + z.len
                          then RshiftDigit(old(x.Digits()), j - z.off, Pow2(shift), higher) else old(z.buf[j])
  {
    hide Span.Digits, Pow2, Or, RshiftDigit;
    ghost var xs := x.Digits();
    SpanElements(x);
    var num: DDigit := 0x1_0000_0000 * (higher as int);
    ghost var above := higher;
    var n := x.len;
    while 0 < n
      invariant 0 <= n <= x.len && num == 0x1_0000_0000 * (above as int)
      invariant above == if n < x.len then xs[n] else higher
      invariant forall j :: 0 <= j < z.buf.Length ==>
                  z.buf[j] == if z.off + n <= j < z.off + z.len
                              then RshiftDigit(xs, j - z.off, Pow2(shift), higher) else old(z.buf[j])
    {
      n := n - 1;
      RshiftCombine(xs, n, shift, higher, num);
      var x0 := x.buf[x.off + n];
      num := Or(x0, num) / Pow2(shift);
      z.buf[z.off + n] := Lo(num);
      num := 0x1_0000_0000 * (x0 as int);
      above := x0;
    }
  }

  ghost function RshiftDigit(xs: seq<Digit>, i: nat, p: nat, higher: Digit): Digit
    requires i < |xs| && p > 0
  {
    Lo((0x1_0000_0000 * (Above(xs, i, higher) as int) + xs[i]) / p)
  }

  lemma OrDouble(x: Digit, a: Digit)
    ensures Or(x, 0x1_0000_0000 * (a as int)) == 0x1_0000_0000 * (a as int) + x
  {
    hide Or, Pow2;
    Pow2Values();
    OrIsSum(x, a, 32);
  }

  lemma RshiftCombine(xs: seq<Digit>, i: nat, shift: nat, higher: Digit, num: int)
    requires i < |xs| && shift < BITSPERDIG && num == 0x1_0000_0000 * (Above(xs, i, higher) as int)
    ensures 0 <= Or(xs[i], num) / Pow2(shift) < 0x1_0000_0000_0000_0000
    ensures Lo(Or(xs[i], num) / Pow2(shift)) == RshiftDigit(xs, i, Pow2(shift), higher)
  {
    hide Or, Pow2, Above, Lo;
    OrDouble(xs[i], Above(xs, i, higher));
    DivSmaller(0x1_0000_0000 * (Above(xs, i, higher) as int) + xs[i], Pow2(shift));
  }

  /** The digits a right shift writes are those of the shifted number: of `higher` only
      the bits that move into the buffer matter, and the bits of the lowest digit that
      fall off are the remainder. */
  lemma {:induction false} RshiftValue(zd: seq<Digit>, xs: seq<Digit>, p: nat, e: nat, higher: Digit, i: nat)
    requires |zd| == |xs| && i <= |xs| && p * e == 0x1_0000_0000
    requires forall j :: i <= j < |xs| ==> zd[j] == RshiftDigit(xs, j, p, higher)
    ensures Val(zd[i..]) * p + (if i < |xs| then xs[i] else higher) % p == Val(xs[i..]) + Shl(higher % p, |xs| - i)
    decreases |xs| - i
  {
    if i < |xs| {
      RshiftValue(zd, xs, p, e, higher, i + 1);
      assert zd[i..][1..] == zd[i + 1..] && xs[i..][1..] == xs[i + 1..];
      RshiftStep(xs[i], Above(xs, i, higher), zd[i], p, e);
      RshiftJoin(zd[i], Val(zd[i + 1..]), xs[i], Val(xs[i + 1..]), Above(xs, i, higher),
                 Shl(higher % p, |xs| - i - 1), p);
    } else {
      assert zd[i..] == [] && xs[i..] == [];
    }
  }

  lemma RshiftJoin(z: int, z1: int, x: int, x1: int, a: int, m: int, p: int)
    requires p > 0 && z1 * p + a % p == x1 + m && z * p + x % p == x + 0x1_0000_0000 * (a % p)
    ensures (z + 0x1_0000_0000 * z1) * p + x % p == (x + 0x1_0000_0000 * x1) + 0x1_0000_0000 * m
  {
    var r, s := a % p, x % p;
    assert (z + 0x1_0000_0000 * z1) * p == z * p + 0x1_0000_0000 * (z1 * p);
  }

  /** One digit: with a = q*p + r above it, (a*b + x)/p = q*b + (r*b + x)/p. */
  lemma RshiftStep(x: Digit, a: Digit, z: Digit, p: nat, e: nat)
    requires p * e == 0x1_0000_0000 && p > 0 && z == Lo((0x1_0000_0000 * (a as int) + x) / p)
    ensures z * p + x % p == x + 0x1_0000_0000 * (a % p)
  {
    var q, r, xq, xr := a / p, a % p, x / p, x % p;
    RshiftAlgebra(x, a, p, e, q, r, xq, xr);
    DivModUnique(0x1_0000_0000 * (a as int) + x, p, q * 0x1_0000_0000 + (e * r + xq), xr);
    DivModUnique(q * 0x1_0000_0000 + (e * r + xq), 0x1_0000_0000, q, e * r + xq);
  }

  lemma RshiftAlgebra(x: int, a: int, p: int, e: int, q: int, r: int, xq: int, xr: int)
    requires p * e == 0x1_0000_0000 && p > 0 && e > 0 && 0 <= x < 0x1_0000_0000
    requires a == q * p + r && 0 <= r < p && x == xq * p + xr && 0 <= xr < p
    ensures 0x1_0000_0000 * a + x == (q * 0x1_0000_0000 + (e * r + xq)) * p + xr
    ensures 0 <= e * r + xq < 0x1_0000_0000
    ensures (e * r + xq) * p + xr == x + 0x1_0000_0000 * r
  {
    assert (e * r) * p == (p * e) * r;
    assert (e * r + xq) * p == (e * r) * p + xq * p;
    assert (q * 0x1_0000_0000) * p == 0x1_0000_0000 * (q * p);
    QuotientBound(x, p, e, xq, xr);
    MulMonotone(r, p - 1, e);
  }

  lemma QuotientBound(x: int, p: int, e: int, xq: int, xr: int)
    requires p * e == 0x1_0000_0000 && p > 0 && e > 0 && 0 <= x < 0x1_0000_0000 && x == xq * p + xr && 0 <= xr < p
    ensures 0 <= xq < e
  {
    if xq >= e { MulMonotone(e, xq, p); }
    if xq < 0 { MulMonotone(xq, -1, p); }
  }

  /** `bary_small_rshift`: the buffer with `higher` above it, shifted down. */
  method SmallRshift(z: Span, x: Span, shift: nat, higher: Digit)
    requires z.Valid() && x.Valid() && z.len == x.len && z.AheadOf(x) && shift < BITSPERDIG
    modifies z.buf
    ensures var r := if x.len > 0 then old(x.Digits())[0] else higher;
            z.Value() * Pow2(shift) + r % Pow2(shift) == old(x.Value()) + Shl(higher % Pow2(shift), z.len)
    ensures forall s: Span {:trigger s.Digits()} ::
      old(allocated(s)) && s.Valid() && s.Disjoint(z) ==> s.Digits() == old(s.Digits())
  {
    hide Val, Shl, Pow2, RshiftDigit;
    ghost var xs := x.Digits();
    RshiftLoop(z, x, shift, higher);
    Pow2Values();
    Pow2Add(shift, 32 - shift);
    RshiftValue(z.Digits(), xs, Pow2(shift), Pow2(32 - shift), higher, 0);
    assert z.Digits()[0..] == z.Digits() && xs[0..] == xs;
  }
}

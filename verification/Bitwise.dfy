/**
 * Bit operations on signed big numbers: as if every number had infinitely many bits in two's
 * complement.
 */
module Bitwise {
  import opened Bits
  import opened Digits
  import opened AddSub
  import opened Shift

  //----------------------------------------------------------------------------
  // Bits of integers

  /** Bit k of an integer in infinite two's complement. */
  function Bit(v: int, k: nat): bool
    decreases k
  {
    if k == 0 then v % 2 == 1 else Bit(v / 2, k - 1)
  }

  /** That is, of the integer shifted down, rounding towards minus infinity. */
  lemma {:induction false} BitMeaning(v: int, k: nat)
    ensures Bit(v, k) <==> (v / Pow2(k)) % 2 == 1
    decreases k
  {
    if k > 0 {
      BitMeaning(v / 2, k - 1);
      HalfTwice(v, Pow2(k - 1));
    }
  }

  lemma HalfTwice(v: int, m: int)
    requires m > 0
    ensures (v / 2) / m == v / (2 * m)
  {
    var q, r := (v / 2) / m, (v / 2) % m;
    assert v / 2 == q * m + r;
    assert v == q * (2 * m) + (v % 2 + 2 * r);
    DivModUnique(v, 2 * m, q, v % 2 + 2 * r);
  }

  /** A number is determined by its bits. */
  lemma {:induction false} SameBits(v: int, w: int)
    requires forall k: nat :: Bit(v, k) == Bit(w, k)
    ensures v == w
    decreases (if v < 0 then -v else v) + (if w < 0 then -w else w)
  {
    assert Bit(v, 0) == Bit(w, 0);
    forall k: nat
      ensures Bit(v / 2, k) == Bit(w / 2, k)
    {
      assert Bit(v, k + 1) == Bit(w, k + 1);
    }
    if -1 <= v <= 0 && -1 <= w <= 0 {
    } else {
      SameBits(v / 2, w / 2);
    }
  }

  lemma {:induction false} BitSigns(k: nat)
    ensures Bit(-1, k) && !Bit(0, k)
    decreases k
  {
    if k > 0 { BitSigns(k - 1); }
  }

  /** The low m bits of d + 2^m * t are those of d, the others those of t. */
  lemma {:induction false} BitJoin(d: int, t: int, m: nat, k: nat)
    requires k < m || 0 <= d < Pow2(m)
    ensures Bit(d + Pow2(m) * t, k) == if k < m then Bit(d, k) else Bit(t, k - m)
    decreases m
  {
    if m > 0 {
      var v := d + Pow2(m) * t;
      assert Pow2(m) * t == 2 * (Pow2(m - 1) * t) by { MulTwo(Pow2(m - 1), t); }
      assert v % 2 == d % 2 && v / 2 == d / 2 + Pow2(m - 1) * t;
      if k > 0 { BitJoin(d / 2, t, m - 1, k - 1); }
    }
  }

  lemma MulTwo(p: int, t: int)
    ensures 2 * p * t == 2 * (p * t)
  {}

  //----------------------------------------------------------------------------
  // The operators on digits

  datatype Op = AndOp | OrOp | XorOp

  predicate On(op: Op, a: bool, b: bool)
  {
    match op
    case AndOp => a && b
    case OrOp => a || b
    case XorOp => a != b
  }

  /** `&`, `|` and `^`. */
  function Apply(op: Op, x: nat, y: nat): nat
    decreases x + y
  {
    if x + y == 0 then 0
    else (if On(op, x % 2 == 1, y % 2 == 1) then 1 else 0) + 2 * Apply(op, x / 2, y / 2)
  }

  lemma {:induction false} ApplyBit(op: Op, x: nat, y: nat, k: nat)
    ensures Bit(Apply(op, x, y), k) == On(op, Bit(x, k), Bit(y, k))
    decreases k
  {
    if x + y == 0 {
      BitSigns(k);
    } else if k > 0 {
      ApplyBit(op, x / 2, y / 2, k - 1);
    }
  }

  lemma {:induction false} ApplyBound(op: Op, x: nat, y: nat, m: nat)
    requires x < Pow2(m) && y < Pow2(m)
    ensures Apply(op, x, y) < Pow2(m)
    decreases m
  {
    if x + y > 0 && m > 0 { ApplyBound(op, x / 2, y / 2, m - 1); }
  }

  /** `&` of a number and a power of two. */
  lemma {:induction false} AndOneBit(x: nat, k: nat)
    ensures And(x, Pow2(k)) != 0 <==> Bit(x, k)
    decreases k
  {
    if x == 0 {
      BitSigns(k);
    } else if k > 0 {
      AndOneBit(x / 2, k - 1);
    } else {
      AndZero(x / 2);
    }
  }

  //----------------------------------------------------------------------------
  // Digits with sign bits

  /** The number that digits stand for when all bits above them are h. */
  function Signed(ds: seq<Digit>, h: bool): int
  {
    if ds == [] then (if h then -1 else 0) else ds[0] + 0x1_0000_0000 * Signed(ds[1..], h)
  }

  lemma {:induction false} SignedValue(ds: seq<Digit>, h: bool)
    ensures Signed(ds, h) == Val(ds) - if h then Pow(|ds|) else 0
    decreases |ds|
  {
    if ds != [] { SignedValue(ds[1..], h); }
  }

  /** Digit i, or what the sign bits make of it. */
  function DigitAt(ds: seq<Digit>, h: bool, i: nat): Digit
  {
    if i < |ds| then ds[i] else if h then 0xFFFF_FFFF else 0
  }

  lemma {:induction false} SignedBit(ds: seq<Digit>, h: bool, k: nat)
    ensures Bit(Signed(ds, h), k) == Bit(DigitAt(ds, h, k / 32), k % 32)
    decreases |ds|
  {
    hide Pow2, Bit;
    if ds == [] {
      BitSigns(k);
      BitSigns(k % 32);
      AllOnes(k % 32);
    } else {
      Pow2Values();
      BitJoin(ds[0], Signed(ds[1..], h), 32, k);
      if k >= 32 { SignedBit(ds[1..], h, k - 32); }
    }
  }

  lemma AllOnes(j: nat)
    requires j < 32
    ensures Bit(0xFFFF_FFFF, j)
  {
    Pow2Values();
    BitJoin(0xFFFF_FFFF, -1, 32, j);
    BitJoin(0xFFFF_FFFF - 0x1_0000_0000, 1, 32, j);
    BitSigns(j);
  }

  //----------------------------------------------------------------------------
  // Big numbers

  /** Sign and magnitude; the magnitude may have leading zeros. */
  datatype Big = Big(negative: bool, digits: seq<Digit>)
  {
    ghost function Value(): int { if negative then 0 - Val(digits) else Val(digits) }

    /** There is no negative zero. */
    ghost predicate Valid() { negative ==> Val(digits) != 0 }
  }

  /** `BARY_TRUNC`: without the leading zeros. */
  method Trunc(ds: seq<Digit>) returns (ts: seq<Digit>)
    ensures Val(ts) == Val(ds) && |ts| <= |ds| && (ts != [] ==> ts[|ts| - 1] != 0)
    ensures ts == ds[..|ts|]
  {
    var n: nat := |ds|;
    while n > 0 && ds[n - 1] == 0
      invariant n <= |ds| && forall i :: n <= i < |ds| ==> ds[i] == 0
    {
      n := n - 1;
    }
    ts := ds[..n];
    ValDropZeros(ds, n);
  }

  /** `abs2twocomp`: the digits of a number in two's complement, and its sign bits. */
  method Abs2TwoComp(x: Big) returns (ds: seq<Digit>, h: bool)
    requires x.Valid()
    ensures Signed(ds, h) == x.Value() && (h <==> x.Value() < 0)
    ensures |ds| <= |x.digits| && (h ==> ds != [])
  {
    hide Val, Pow;
    ds := Trunc(x.digits);
    h := false;
    if |ds| != 0 && x.negative {
      var a := new Digit[|ds|](i requires 0 <= i < |ds| => ds[i]);
      var z := Span(a, 0, |ds|);
      assert z.Digits() == ds;
      var zero := TwoComp(z);
      ds, h := z.buf[..], true;
      assert z.Digits() == ds;
    }
    ValEmpty(ds);
    ValNonNegative(x.digits);
    SignedValue(ds, h);
  }

  lemma ValNonNegative(ds: seq<Digit>)
    ensures Val(ds) >= 0
  {}

  /** `twocomp2abs_bang`: back to sign and magnitude; a magnitude of b^n needs one more
      digit. */
  method TwoComp2Abs(a: array<Digit>, h: bool) returns (z: Big)
    requires h ==> a.Length > 0
    modifies a
    ensures z.Value() == old(Signed(a[..], h)) && z.Valid()
  {
    hide Val, Pow, Shl;
    ghost var ds := a[..];
    SignedValue(ds, h);
    ValNonNegative(ds);
    if h {
      var s := Span(a, 0, a.Length);
      assert s.Digits() == ds;
      ValBound(ds);
      var zero := TwoComp(s);
      assert s.Digits() == a[..];
      if zero {
        z := Big(true, a[..] + [1]);
        ValSnoc(a[..], 1);
        ShlUnit(|ds|);
      } else {
        z := Big(true, a[..]);
      }
    } else {
      z := Big(false, a[..]);
    }
  }

  //----------------------------------------------------------------------------
  // and, or, xor

  /** The digits the operator gives, the first n of them. */
  ghost predicate Combined(op: Op, xs: seq<Digit>, h1: bool, ys: seq<Digit>, h2: bool, zs: seq<Digit>, n: nat)
  {
    n <= |zs| && forall i :: 0 <= i < n ==> zs[i] == Apply(op, DigitAt(xs, h1, i), DigitAt(ys, h2, i))
  }

  /** The two loops: over the digits of both, then of the longer one. */
  method CombineDigits(op: Op, xs: seq<Digit>, h1: bool, ys: seq<Digit>, ghost h2: bool, n2: nat)
    returns (zs: array<Digit>)
    requires |xs| <= |ys| && |xs| <= n2 <= |ys|
    ensures fresh(zs) && zs.Length == n2 && Combined(op, xs, h1, ys, h2, zs[..], n2)
  {
    hide Apply, Pow2;
    zs := new Digit[n2];
    Pow2Values();
    var i := 0;
    while i < |xs|
      invariant i <= |xs| && Combined(op, xs, h1, ys, h2, zs[..], i)
    {
      ApplyBound(op, xs[i], ys[i], 32);
      zs[i] := Apply(op, xs[i], ys[i]);
      i := i + 1;
    }
    while i < n2
      invariant |xs| <= i <= n2 && Combined(op, xs, h1, ys, h2, zs[..], i)
    {
      var hibits: Digit := if h1 then 0xFFFF_FFFF else 0;
      ApplyBound(op, hibits, ys[i], 32);
      zs[i] := Apply(op, hibits, ys[i]);
      i := i + 1;
    }
  }

  /** Bit by bit: what the digits stand for. */
  lemma CombinedBits(op: Op, xs: seq<Digit>, h1: bool, ys: seq<Digit>, h2: bool, zs: seq<Digit>, h: bool, k: nat)
    requires Combined(op, xs, h1, ys, h2, zs, |zs|) && h == On(op, h1, h2)
    requires |zs| <= k / 32 ==> |xs| <= k / 32 && (|ys| <= k / 32 || (forall b :: On(op, h1, b) == h))
    ensures Bit(Signed(zs, h), k) == On(op, Bit(Signed(xs, h1), k), Bit(Signed(ys, h2), k))
  {
    var i, j := k / 32, k % 32;
    SignedBit(xs, h1, k);
    SignedBit(ys, h2, k);
    SignedBit(zs, h, k);
    if i < |zs| {
      ApplyBit(op, DigitAt(xs, h1, i), DigitAt(ys, h2, i), j);
    } else {
      AllOnes(j);
      BitSigns(j);
    }
  }

  ghost predicate BitsOf(op: Op, z: int, x: int, y: int) { forall k: nat :: Bit(z, k) == On(op, Bit(x, k), Bit(y, k)) }

  /** `rb_big_and`, `rb_big_or` and `rb_big_xor` of two big numbers, from the digits on; the
      shorter one comes first.  Where its sign bits decide alone, the digits of the longer one
      above it are not looked at. */
  method Combine(op: Op, xs: seq<Digit>, h1: bool, ys: seq<Digit>, h2: bool) returns (z: Big)
    requires |xs| <= |ys| && (h1 ==> xs != []) && (h2 ==> ys != [])
    ensures z.Valid() && BitsOf(op, z.Value(), Signed(xs, h1), Signed(ys, h2))
  {
    hide Signed, Val;
    var decided := match op case AndOp => !h1 case OrOp => h1 case XorOp => false;
    var n2 := if decided then |xs| else |ys|;
    var zs := CombineDigits(op, xs, h1, ys, h2, n2);
    var h := On(op, h1, h2);
    ghost var ds := zs[..];
    forall k: nat
      ensures Bit(Signed(ds, h), k) == On(op, Bit(Signed(xs, h1), k), Bit(Signed(ys, h2), k))
    {
      CombinedBits(op, xs, h1, ys, h2, ds, h, k);
    }
    z := TwoComp2Abs(zs, h);
  }

  /** The operations, for any two big numbers. */
  method BigOp(op: Op, x: Big, y: Big) returns (z: Big)
    requires x.Valid() && y.Valid()
    ensures z.Valid() && BitsOf(op, z.Value(), x.Value(), y.Value())
  {
    hide Signed, Val, Bit;
    var xs, hx := Abs2TwoComp(x);
    var ys, hy := Abs2TwoComp(y);
    if |xs| > |ys| {
      z := Combine(op, ys, hy, xs, hx);
      Commutes(op, z.Value(), Signed(ys, hy), Signed(xs, hx));
    } else {
      z := Combine(op, xs, hx, ys, hy);
    }
  }

  lemma Commutes(op: Op, z: int, x: int, y: int)
    requires BitsOf(op, z, x, y)
    ensures BitsOf(op, z, y, x)
  {}

  //----------------------------------------------------------------------------
  // Reading one bit

  lemma {:induction false} NotBit(u: int, k: nat)
    ensures Bit(-u - 1, k) == !Bit(u, k)
    decreases k
  {
    if k > 0 {
      assert (-u - 1) / 2 == -(u / 2) - 1;
      NotBit(u / 2, k - 1);
    }
  }

  /** The bits of -m: those of m up to the lowest one set, the others reversed. */
  lemma {:induction false} NegBit(m: int, k: nat)
    requires m >= 0
    ensures Bit(-m, k) == if m % Pow2(k) != 0 then !Bit(m, k) else Bit(m, k)
    decreases k
  {
    if k > 0 {
      ModTwice(m, Pow2(k - 1));
      if m % 2 == 0 {
        assert (-m) / 2 == -(m / 2);
        NegBit(m / 2, k - 1);
      } else {
        assert (-m) / 2 == -(m / 2) - 1;
        NotBit(m / 2, k - 1);
      }
    }
  }

  lemma ModJoin(d: int, t: int, p: int, e: int)
    requires p > 0 && e > 0
    ensures (d + p * e * t) % p == d % p
  {
    var q := d / p;
    assert d + p * e * t == (q + e * t) * p + d % p;
    DivModUnique(d + p * e * t, p, q + e * t, d % p);
  }

  lemma ModDigit(d: int, t: int, m: int)
    requires 0 <= d < 0x1_0000_0000 && m > 0
    ensures (d + 0x1_0000_0000 * t) % (0x1_0000_0000 * m) == d + 0x1_0000_0000 * (t % m)
  {
    var q, r := t / m, t % m;
    assert t == q * m + r;
    assert d + 0x1_0000_0000 * t == q * (0x1_0000_0000 * m) + (d + 0x1_0000_0000 * r);
    DivModUnique(d + 0x1_0000_0000 * t, 0x1_0000_0000 * m, q, d + 0x1_0000_0000 * r);
  }

  /** When all bits below bit 32 * s1 + s2 of a magnitude are zero. */
  lemma {:induction false} LowBitsZero(ds: seq<Digit>, s1: nat, s2: nat)
    requires s1 < |ds| && s2 < 32
    ensures Val(ds) % Pow2(32 * s1 + s2) == 0 <==> (forall i :: 0 <= i < s1 ==> ds[i] == 0) && ds[s1] % Pow2(s2) == 0
    decreases |ds|
  {
    var t := Val(ds[1..]);
    if s1 == 0 {
      Pow2Values();
      Pow2Add(s2, 32 - s2);
      ModJoin(ds[0], t, Pow2(s2), Pow2(32 - s2));
    } else {
      LowBitsZero(ds[1..], s1 - 1, s2);
      Pow2Values();
      Pow2Add(32, 32 * (s1 - 1) + s2);
      ModDigit(ds[0], t, Pow2(32 * (s1 - 1) + s2));
      assert forall i :: 0 <= i < s1 - 1 ==> ds[1..][i] == ds[i + 1];
      assert (forall i :: 0 <= i < s1 ==> ds[i] == 0) <==>
        ds[0] == 0 && (forall i :: 0 <= i < s1 - 1 ==> ds[1..][i] == 0) by {
        assert forall i :: 1 <= i < s1 ==> ds[i] == ds[1..][i - 1];
      }
    }
  }

  lemma MagnitudeBit(ds: seq<Digit>, k: nat)
    ensures Bit(Val(ds), k) == (k / 32 < |ds| && Bit(ds[k / 32], k % 32))
  {
    SignedValue(ds, false);
    SignedBit(ds, false, k);
    BitSigns(k % 32);
  }

  lemma {:induction false} BeyondBits(m: nat, k: nat)
    requires m < Pow2(k)
    ensures !Bit(m, k)
    decreases k
  {
    if k > 0 { BeyondBits(m / 2, k - 1); }
  }

  lemma {:induction false} PowIsPow2(n: nat)
    ensures Pow(n) == Pow2(32 * n)
    decreases n
  {
    if n > 0 {
      PowIsPow2(n - 1);
      Pow2Values();
      Pow2Add(32, 32 * (n - 1));
    }
  }

  /** `rb_big_aref`: bit k, or 0 if k is negative. */
  method Aref(x: Big, k: int) returns (one: bool)
    requires x.Valid()
    ensures one <==> k >= 0 && Bit(x.Value(), k)
  {
    hide Val, Bit, And, Pow2;
    if k < 0 { return false; }
    var s1, s2 := k / 32, k % 32;
    var ds := x.digits;
    MagnitudeBit(ds, k);
    if s1 >= |ds| {
      Outside(ds, k);
      return x.negative;
    }
    var bit := Pow2(s2);
    AndOneBit(ds[s1], s2);
    if !x.negative { return And(ds[s1], bit) != 0; }
    NegBit(Val(ds), k);
    LowBitsZero(ds, s1, s2);
    AndMask(ds[s1], s2);
    if And(ds[s1], bit - 1) != 0 { return And(ds[s1], bit) == 0; }
    for i := 0 to s1
      invariant forall j :: 0 <= j < i ==> ds[j] == 0
    {
      if ds[i] != 0 { return And(ds[s1], bit) == 0; }
    }
    return And(ds[s1], bit) != 0;
  }

  lemma Outside(ds: seq<Digit>, k: nat)
    requires |ds| <= k / 32
    ensures !Bit(Val(ds), k) && (Val(ds) != 0 ==> Bit(0 - Val(ds), k))
  {
    hide Val, Pow, Pow2, Bit;
    ValBound(ds);
    PowIsPow2(|ds|);
    Pow2Monotone(32 * |ds|, k);
    BeyondBits(Val(ds), k);
    NegBit(Val(ds), k);
    DivModUnique(Val(ds), Pow2(k), 0, Val(ds));
  }

  //----------------------------------------------------------------------------
  // Shifts

  const LONG_MAX: nat := 0x7FFF_FFFF_FFFF_FFFF

  datatype Outcome = Number(value: Big) | ArgumentError

  /** `big_shift3` to the left. */
  method ShiftLeft(x: Big, s1: nat, s2: nat) returns (r: Outcome)
    requires s2 < 32 && x.Valid()
    ensures r.ArgumentError? <==> s1 > LONG_MAX
    ensures r.Number? ==> r.value.Valid() && r.value.Value() == x.Value() * Pow2(32 * s1 + s2)
  {
    hide Val, Pow, Pow2, Shl;
    if LONG_MAX < s1 { return ArgumentError; }
    var xn := |x.digits|;
    var xs := new Digit[xn](i requires 0 <= i < xn => x.digits[i]);
    var zs := new Digit[xn];
    var c := SmallLshift(Span(zs, 0, xn), Span(xs, 0, xn), s2);
    assert Span(xs, 0, xn).Digits() == x.digits;
    assert Span(zs, 0, xn).Digits() == zs[..];
    var ds: seq<Digit> := Zeros(s1) + (zs[..] + [c]);
    ShiftedUp(x.digits, zs[..], c, s1, s2);
    r := Number(Big(x.negative, ds));
    NegScale(Val(x.digits), Pow2(32 * s1 + s2));
  }

  function Zeros(n: nat): (s: seq<Digit>)
    ensures |s| == n && forall i :: 0 <= i < n ==> s[i] == 0
  {
    seq(n, _ => 0)
  }

  lemma ShiftedUp(xs: seq<Digit>, zs: seq<Digit>, c: Digit, s1: nat, s2: nat)
    requires |zs| == |xs| && Val(zs) + Shl(c, |zs|) == Pow2(s2) * Val(xs)
    ensures Val(Zeros(s1) + (zs + [c])) == Val(xs) * Pow2(32 * s1 + s2)
  {
    hide Val, Pow, Pow2, Shl;
    ValSnoc(zs, c);
    ValAppend(Zeros(s1), zs + [c]);
    ValZeros(Zeros(s1));
    ShlIsProduct(Val(zs + [c]), s1);
    PowIsPow2(s1);
    Pow2Add(32 * s1, s2);
    Rearranged(Val(xs), Pow2(s2), Pow2(32 * s1));
  }

  lemma Rearranged(x: int, a: int, b: int)
    ensures (a * x) * b == x * (b * a)
  {}

  lemma NegScale(m: nat, p: nat)
    requires p > 0
    ensures (0 - m) * p == 0 - m * p && (m != 0 ==> m * p != 0)
  {}

  /** `big_shift3` to the right: division by a power of two, rounding down. */
  method ShiftRight(x: Big, s1: nat, s2: nat) returns (z: Big)
    requires s2 < 32 && x.Valid()
    ensures z.Valid() && z.Value() == x.Value() / Pow2(32 * s1 + s2)
  {
    hide Val, Pow, Pow2, Shl, Signed;
    ValEmpty([]);
    if |x.digits| <= s1 {
      ShiftedOut(x.digits, s1, s2);
      return if x.negative then MinusOne() else Big(false, []);
    }
    var xs, h := Abs2TwoComp(x);
    if |xs| <= s1 {
      SignedOut(xs, h, s1, s2);
      return if h then MinusOne() else Big(false, []);
    }
    var zn := |xs| - s1;
    var xa := new Digit[|xs|](i requires 0 <= i < |xs| => xs[i]);
    var za := new Digit[zn];
    var xsp, zsp := Span(xa, s1, zn), Span(za, 0, zn);
    assert xsp.Digits() == xs[s1..];
    SmallRshift(zsp, xsp, s2, if h then 0xFFFF_FFFF else 0);
    assert zsp.Digits() == za[..];
    ShiftedDown(xs, h, za[..], s1, s2);
    z := TwoComp2Abs(za, h);
  }

  function MinusOne(): (b: Big)
    ensures b.Valid() && b.Value() == -1
  {
    ValSingle(1);
    Big(true, [1])
  }

  lemma SmallQuotient(v: int, p: int)
    requires -p <= v < p && p > 0
    ensures v / p == if v < 0 then -1 else 0
  {
    if v < 0 {
      DivModUnique(v, p, -1, v + p);
    } else {
      DivModUnique(v, p, 0, v);
    }
  }

  lemma ShiftedOut(ds: seq<Digit>, s1: nat, s2: nat)
    requires |ds| <= s1
    ensures var p := Pow2(32 * s1 + s2);
            Val(ds) / p == 0 && (Val(ds) != 0 ==> (0 - Val(ds)) / p == -1)
  {
    hide Val, Pow, Pow2;
    var p := Pow2(32 * s1 + s2);
    ValBound(ds);
    PowIsPow2(|ds|);
    Pow2Monotone(32 * |ds|, 32 * s1 + s2);
    SmallQuotient(Val(ds), p);
    SmallQuotient(0 - Val(ds), p);
  }

  lemma SignedOut(ds: seq<Digit>, h: bool, s1: nat, s2: nat)
    requires |ds| <= s1
    ensures Signed(ds, h) / Pow2(32 * s1 + s2) == if h then -1 else 0
  {
    hide Val, Pow, Pow2, Signed;
    var p := Pow2(32 * s1 + s2);
    ValBound(ds);
    SignedValue(ds, h);
    PowIsPow2(|ds|);
    Pow2Monotone(32 * |ds|, 32 * s1 + s2);
    SmallQuotient(Signed(ds, h), p);
  }

  /** What shifting does to the digits above the shift, with the sign bits. */
  lemma ShiftedBits(xs: seq<Digit>, h: bool, zs: seq<Digit>, s2: nat)
    requires |zs| == |xs| > 0 && s2 < 32
    requires Val(zs) * Pow2(s2) + xs[0] % Pow2(s2) == Val(xs) + Shl((if h then 0xFFFF_FFFF else 0) % Pow2(s2), |zs|)
    ensures Signed(zs, h) * Pow2(s2) + xs[0] % Pow2(s2) == Signed(xs, h)
  {
    hide Val, Pow, Pow2, Signed, Shl;
    SignedValue(xs, h);
    SignedValue(zs, h);
    var p, n := Pow2(s2), Pow(|zs|);
    if h {
      MaxMod(s2);
      ShlIsProduct(p - 1, |zs|);
      SignedAlgebra(Val(zs), p, n, xs[0] % p, Val(xs));
    } else {
      ZeroMod(p);
      ShlUnit(|zs|);
    }
  }

  lemma SignedAlgebra(z: int, p: int, n: int, r: int, x: int)
    requires z * p + r == x + (p - 1) * n
    ensures (z - n) * p + r == x - n
  {
    assert (z - n) * p == z * p - n * p && (p - 1) * n == p * n - n;
  }

  lemma MaxMod(s: nat)
    requires s < 32
    ensures 0xFFFF_FFFF % Pow2(s) == Pow2(s) - 1
  {
    hide Pow2;
    Pow2Values();
    Pow2Add(s, 32 - s);
    var p, e := Pow2(s), Pow2(32 - s);
    assert 0xFFFF_FFFF == (e - 1) * p + (p - 1) by { Expand(e, p); }
    DivModUnique(0xFFFF_FFFF, p, e - 1, p - 1);
  }

  lemma Expand(e: int, p: int)
    ensures (e - 1) * p + (p - 1) == p * e - 1
  {}

  lemma {:induction false} SignedSplit(ds: seq<Digit>, h: bool, k: nat)
    requires k <= |ds|
    ensures Signed(ds, h) == Val(ds[..k]) + Shl(Signed(ds[k..], h), k)
  {
    hide Val, Shl, Signed, Pow;
    SignedValue(ds, h);
    SignedValue(ds[k..], h);
    ValSplit(ds, k);
    var t := if h then Pow(|ds| - k) else 0;
    ShlAdd(Val(ds[k..]), 0 - t, k);
    ShlIsProduct(0 - t, k);
    PowAdd(|ds| - k, k);
    NegProduct(t, Pow(k));
  }

  lemma NegProduct(a: int, b: int)
    ensures (0 - a) * b == 0 - a * b
  {}

  /** Rounding down: the bits shifted out are the remainder. */
  lemma ShiftedDown(xs: seq<Digit>, h: bool, zs: seq<Digit>, s1: nat, s2: nat)
    requires s1 < |xs| && |zs| == |xs| - s1 && s2 < 32
    requires Val(zs) * Pow2(s2) + xs[s1] % Pow2(s2) == Val(xs[s1..])
             + Shl((if h then 0xFFFF_FFFF else 0) % Pow2(s2), |zs|)
    ensures Signed(zs, h) == Signed(xs, h) / Pow2(32 * s1 + s2)
  {
    hide Val, Pow, Pow2, Signed, Shl;
    ShiftedBits(xs[s1..], h, zs, s2);
    SignedSplit(xs, h, s1);
    ValBound(xs[..s1]);
    PowIsPow2(s1);
    ShlIsProduct(Signed(xs[s1..], h), s1);
    Pow2Add(32 * s1, s2);
    TwoRemainders(Signed(xs, h), Signed(zs, h), Val(xs[..s1]), xs[s1] % Pow2(s2), Pow2(32 * s1), Pow2(s2));
  }

  lemma TwoRemainders(x: int, z: int, lo: int, r: int, a: int, b: int)
    requires a > 0 && b > 0 && 0 <= lo < a && 0 <= r < b && x == lo + (z * b + r) * a
    ensures x / (a * b) == z
  {
    assert (z * b + r) * a == z * (a * b) + r * a;
    assert 0 <= r * a <= (b - 1) * a == a * b - a;
    assert a * b > 0;
    DivModUnique(x, a * b, z, lo + r * a);
  }
}

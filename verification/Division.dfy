/** Long division of digit buffers. */
module Division {
  import opened Bits
  import opened Digits
  import opened AddSub
  import opened Shift

  //----------------------------------------------------------------------------
  // bigdivrem_mulsub

  /** Conversion to `BDIGIT_DBL` and back to `BDIGIT_DBL_SIGNED`. */
  function ToUnsigned(x: int): DDigit { x % 0x1_0000_0000_0000_0000 }
  function ToSigned(x: int): SDigit
  {
    var u := x % 0x1_0000_0000_0000_0000;
    if u < 0x8000_0000_0000_0000 then u else u - 0x1_0000_0000_0000_0000
  }

  /** The mixed signed and unsigned arithmetic of one digit is exact. */
  lemma MulSubDigit(num: int, t2: int, z: int)
    requires -1 <= num <= 0 && 0 <= t2 < 0x1_0000_0000_0000_0000 && 0 <= z < 0x1_0000_0000
    ensures var ee := ToUnsigned(num - Lo(t2)); var n := num + z - Lo(t2);
            && ToSigned(z + ee) == n && (ee == 0 ==> n == z)
            && -1 <= Dn(n) <= 0
            && Lo(num - t2 + z) == Lo(n) && Dn(num - t2 + z) == Dn(n) - Dn(t2)
  {}

  method MulSubLoop(z: Span, x: int, y: Span) returns (num: SDigit, t2: DDigit)
    requires 0 <= x < 0x1_0000_0000 && z.Valid() && y.Valid() && z.len == y.len && z.Disjoint(y)
    modifies z.buf
    ensures -1 <= num <= 0 && t2 < 0x1_0000_0000
    ensures var cols := Columns(1, old(z.Digits()), -x, old(y.Digits()), z.len);
            num - t2 == Carry(cols, 0, z.len) && Emitted(z, cols, 0, z.len)
  {
    hide Columns, Span.Digits, Carry, DigitOf, ToSigned, ToUnsigned;
    ghost var zs, ys := z.Digits(), y.Digits();
    SpanElements(z);
    SpanElements(y);
    ghost var cols := Columns(1, zs, -x, ys, z.len);
    CarryStart(cols, 0);
    num, t2 := 0, 0;
    var i := 0;
    while i < y.len
      invariant i <= y.len && -1 <= num <= 0 && t2 < 0x1_0000_0000
      invariant num - t2 == Carry(cols, 0, i) && Emitted(z, cols, 0, i)
    {
      CarryStep(cols, 0, i);
      DigitProduct(ys[i], x);
      assert cols[i] == zs[i] - ys[i] * x by { assert -x * ys[i] == -(ys[i] * x); }
      t2 := t2 + y.buf[y.off + i] * x;
      MulSubDigit(num, t2, zs[i]);
      var ee := ToUnsigned(num - Lo(t2));
      num := ToSigned(z.buf[z.off + i] + ee);
      if ee != 0 {
        z.buf[z.off + i] := Lo(num);
      }
      num := Dn(num);
      t2 := Dn(t2);
      i := i + 1;
    }
  }

  method MulSubLow(z: Span, x: int, y: Span) returns (num: SDigit, t2: DDigit)
    requires 0 <= x < 0x1_0000_0000 && z.Valid() && y.Valid() && z.len == y.len && z.Disjoint(y)
    modifies z.buf
    ensures -1 <= num <= 0 && t2 < 0x1_0000_0000
    ensures z.Value() + Shl(num - t2, z.len) == old(z.Value()) - x * old(y.Value())
    ensures forall s: Span {:trigger s.Digits()} ::
      old(allocated(s)) && s.Valid() && s.Disjoint(z) ==> s.Digits() == old(s.Digits())
  {
    hide Val, Shl, Columns, Carry, DigitOf;
    ghost var zs, ys := z.Digits(), y.Digits();
    num, t2 := MulSubLoop(z, x, y);
    ColumnsSum(1, zs, -x, ys, z.len);
    ColumnValue(z.Digits(), Columns(1, zs, -x, ys, z.len), 0);
    assert (-x) * Val(ys) == -(x * Val(ys));
  }

  /** `bigdivrem_mulsub`: z - x*y, where the top digit of z is only read: its new value
      is the result. */
  method MulSub(z: Span, x: int, y: Span) returns (num: SDigit)
    requires 0 <= x < 0x1_0000_0000 && z.Valid() && y.Valid() && z.len == y.len + 1 && z.Disjoint(y)
    modifies z.buf
    ensures z.Sub(0, y.len).Value() + Shl(num, y.len) == old(z.Value()) - x * old(y.Value())
    ensures forall s: Span {:trigger s.Digits()} ::
      old(allocated(s)) && s.Valid() && s.Disjoint(z.Sub(0, y.len)) ==> s.Digits() == old(s.Digits())
  {
    hide Val, Shl, Span.Digits;
    var n := y.len;
    var zl, zt := z.Sub(0, n), z.Sub(n, 1);
    SpanSplit(z, n);
    OneDigit(zt);
    var t2;
    num, t2 := MulSubLow(zl, x, y);
    OneDigit(zt);
    ghost var c, top: int := num - t2, z.buf[z.off + n];
    num := ToSigned(num + z.buf[z.off + n] - t2);
    assert num == c + top;
    ShlAdd(c, top, n);
  }

  lemma OneDigit(z: Span)
    requires z.Valid() && z.len == 1
    ensures z.Digits() == [z.buf[z.off]] && z.Value() == z.buf[z.off]
  {
    assert z.Digits() == [z.buf[z.off]];
    ValSingle(z.buf[z.off]);
  }

  //----------------------------------------------------------------------------
  // One quotient digit

  /** The trial digit: the leading two digits divided by the leading divisor digit. */
  function TrialDigit(z1: Digit, z0: Digit, y0: Digit): int
    requires y0 > 0
  {
    if z1 == y0 then 0xFFFF_FFFF else (0x1_0000_0000 * (z1 as int) + z0) / y0
  }

  /** Knuth's estimate for a divisor y = y0*p + yl whose leading digit has its high bit
      set and a window w = (z1*b + z0)*p + wl below b*y: the trial digit is a digit, never
      below the true quotient digit and at most two above it, and subtracting it leaves
      more than -b*p. */
  lemma TrialDigitBounds(z1: Digit, z0: Digit, wl: int, y0: Digit, yl: int, p: int)
    requires p > 0 && 0 <= wl < p && 0 <= yl < p && y0 >= 0x8000_0000
    requires (0x1_0000_0000 * (z1 as int) + z0) * p + wl < 0x1_0000_0000 * (y0 * p + yl)
    ensures var q := TrialDigit(z1, z0, y0);
            var w, y := (0x1_0000_0000 * (z1 as int) + z0) * p + wl, y0 * p + yl;
            && 0 <= q < 0x1_0000_0000
            && -(0x1_0000_0000 * p) < w - q * y
            && w < (q + 1) * y
            && (q - 2) * y < w
  {
    var u: int, t: int := 0x1_0000_0000 * (z1 as int) + z0, y0;
    var q, w, y := TrialDigit(z1, z0, y0), u * p + wl, t * p + yl;
    assert 0x1_0000_0000 * (t + 1) * p == 0x1_0000_0000 * (t * p + p);
    if z1 >= y0 + 1 { MulMonotone(0x1_0000_0000 * (t + 1), u, p); }
    TrialQuotient(u, t, z1, z0, q);
    TrialLow(u, wl, t, yl, p, q);
    if z1 != y0 { TrialHigh(u, wl, t, yl, p, q); }
  }

  lemma TrialQuotient(u: int, t: int, z1: int, z0: int, q: int)
    requires 0 <= z1 <= t && 0 <= z0 < 0x1_0000_0000 && 0 < t < 0x1_0000_0000
    requires u == 0x1_0000_0000 * z1 + z0 && q == if z1 == t then 0xFFFF_FFFF else u / t
    ensures 0 <= q < 0x1_0000_0000 && q * t <= u && (z1 != t ==> u + 1 <= (q + 1) * t)
  {
    if z1 != t {
      var r := u % t;
      assert u == q * t + r;
      if q >= 0x1_0000_0000 { MulMonotone(0x1_0000_0000, q, t); }
      if q < 0 { MulMonotone(q, -1, t); }
    }
  }

  /** q * y0 <= u keeps the difference above -b*p; with 2*y0 >= b, q is at most 2 off. */
  lemma TrialLow(u: int, wl: int, t: int, yl: int, p: int, q: int)
    requires p > 0 && 0 <= wl < p && 0 <= yl < p && 0 <= q < 0x1_0000_0000 && q * t <= u && t >= 0x8000_0000
    ensures -(0x1_0000_0000 * p) < u * p + wl - q * (t * p + yl)
    ensures (q - 2) * (t * p + yl) < u * p + wl
  {
    MulMonotone(q * t, u, p);
    MulMonotone(yl, p - 1, q);
    MulMonotone(q, 0xFFFF_FFFF, p - 1);
    assert q * (t * p + yl) == q * t * p + yl * q;
    MulMonotone(0x8000_0000, t, p);
    var y := t * p + yl;
    assert (q - 2) * y == q * y - 2 * y;
  }

  lemma TrialHigh(u: int, wl: int, t: int, yl: int, p: int, q: int)
    requires p > 0 && 0 <= wl < p && 0 <= yl && 0 <= q && u + 1 <= (q + 1) * t
    ensures u * p + wl < (q + 1) * (t * p + yl)
  {
    MulMonotone(u + 1, (q + 1) * t, p);
    assert (q + 1) * (t * p + yl) == (q + 1) * t * p + (q + 1) * yl;
    assert (q + 1) * yl >= 0;
  }

  lemma WindowTrial(zs: seq<Digit>, ys: seq<Digit>, q: int)
    requires |zs| == |ys| + 1 >= 2 && ys[|ys| - 1] >= 0x8000_0000 && Val(zs) < 0x1_0000_0000 * Val(ys)
    requires q == TrialDigit(zs[|ys|], zs[|ys| - 1], ys[|ys| - 1])
    ensures 0 <= q < 0x1_0000_0000 && 0 < Val(zs) - q * Val(ys) + Pow(|ys|)
    ensures -2 * Val(ys) < Val(zs) - q * Val(ys) < Val(ys)
  {
    hide Val, Shl;
    var m := |ys| - 1;
    ValSplit(ys, m);
    ValSplit(zs, m);
    assert ys[m..] == [ys[m]] && zs[m..] == [zs[m], zs[m + 1]];
    ValSingle(ys[m]);
    ValPair(zs[m], zs[m + 1]);
    ValBound(ys[..m]);
    ValBound(zs[..m]);
    ShlIsProduct(ys[m], m);
    ShlIsProduct(zs[m] as int + 0x1_0000_0000 * (zs[m + 1] as int), m);
    TrialDigitBounds(zs[m + 1], zs[m], Val(zs[..m]), ys[m], Val(ys[..m]), Pow(m));
    MulAdd2(q, 1, -2, Val(ys));
  }

  lemma MulAdd2(q: int, a: int, c: int, y: int)
    ensures (q + a) * y == q * y + a * y && (q + c) * y == q * y + c * y
  {}

  /** A value between -b^n and b^n is a digit buffer of length n with top digit 0 or -1. */
  lemma TopDigit(l: int, num: int, v: int, n: nat)
    requires 0 <= l < Pow(n) && l + Shl(num, n) == v && 0 < v + Pow(n) && v < Pow(n)
    ensures -1 <= num <= 0
  {
    ShlIsProduct(num, n);
    if num >= 1 { MulMonotone(1, num, Pow(n)); }
    if num <= -2 { MulMonotone(num, -2, Pow(n)); }
  }

  /** The add-back loop.  With the top digit known to be -1, overwriting `num` by the
      carry minus one is the same as adding the carry to it. */
  method AddBack(z: Span, y: Span, num0: int, q0: int, ghost w: int) returns (q: int)
    requires z.Valid() && y.Valid() && z.len == y.len && z.Disjoint(y) && -1 <= num0 <= 0 && 0 <= q0
    requires z.Value() + Shl(num0, z.len) == w - q0 * y.Value() && 0 <= w && w - q0 * y.Value() < y.Value()
    modifies z.buf
    ensures 0 <= q <= q0 && z.Value() == w - q * old(y.Value()) && z.Value() < old(y.Value())
    ensures forall s: Span {:trigger s.Digits()} ::
      old(allocated(s)) && s.Valid() && s.Disjoint(z) ==> s.Digits() == old(s.Digits())
  {
    hide Val, Shl, Span.Digits;
    ghost var y0 := y.Value();
    var num := num0;
    q := q0;
    ShlUnit(z.len);
    while num != 0
      invariant -1 <= num <= 0 && 0 <= q <= q0 && w - q * y0 < y0
      invariant z.Value() + Shl(num, z.len) == w - q * y0
      invariant forall s: Span {:trigger s.Digits()} ::
        old(allocated(s)) && s.Valid() && s.Disjoint(z) ==> s.Digits() == old(s.Digits())
      decreases q
    {
      assert y.Digits() == old(y.Digits());
      SpanBound(z);
      ShlNeg(1, z.len);
      ghost var was := z.Value();
      var carry := Add(z, z, y);
      AddBackStep(w, q, y0, was, Pow(z.len));
      q := q - 1;
      num := carry as int - 1;
      assert num == 0 || num == -1;
      SpanBound(z);
    }
  }

  lemma AddBackStep(w: int, q: int, y: int, was: int, p: int)
    requires 0 <= was < p && was - p == w - q * y && 0 <= w && 0 <= q
    ensures q > 0 && w - (q - 1) * y < y && w - (q - 1) * y == w - q * y + y
  {
    assert q == 0 ==> q * y == 0;
  }

  /** One round of `bigdivrem1` on the window z, one digit longer than y: its value is
      divided by y, the quotient digit goes to the top digit, the remainder stays below
      it.  The subtraction returns only 0 or -1, and at most two add-backs follow. */
  method DivStep(z: Span, y: Span) returns (ghost addBacks: nat)
    requires z.Valid() && y.Valid() && 0 < y.len && z.len == y.len + 1 && z.Disjoint(y)
    requires y.Digits()[y.len - 1] >= 0x8000_0000 && z.Value() < 0x1_0000_0000 * y.Value()
    modifies z.buf
    ensures addBacks <= 2
    ensures z.Sub(0, y.len).Value() < old(y.Value())
    ensures old(z.Value()) == z.Sub(y.len, 1).Value() * old(y.Value()) + z.Sub(0, y.len).Value()
    ensures forall s: Span {:trigger s.Digits()} ::
      old(allocated(s)) && s.Valid() && s.Disjoint(z) ==> s.Digits() == old(s.Digits())
  {
    hide Val, Shl, Span.Digits, TrialDigit, Pow;
    var n := y.len;
    var zl, zt := z.Sub(0, n), z.Sub(n, 1);
    ghost var w, y0 := z.Value(), y.Value();
    SpanElements(z);
    SpanElements(y);
    SpanBound(y);
    var q0: int := TrialDigit(z.buf[z.off + n], z.buf[z.off + n - 1], y.buf[y.off + n - 1]);
    WindowTrial(z.Digits(), y.Digits(), q0);
    var q := q0;
    if q0 != 0 {
      var num := MulSub(z, q0, y);
      SpanBound(zl);
      TopDigit(zl.Value(), num, w - q0 * y0, n);
      q := AddBack(zl, y, num, q0, w);
    } else {
      ZeroTrial(z, n, y0);
    }
    Fill(zt, q);
    OneDigit(zt);
    assert zt.Digits()[0] == q;
    addBacks := q0 - q;
    AtMostTwo(w, q0, q, y0);
  }

  /** With trial digit 0 the window is below y, hence its top digit is 0. */
  lemma ZeroTrial(z: Span, n: nat, y: int)
    requires z.Valid() && z.len == n + 1 && z.Value() < y < Pow(n)
    ensures z.Sub(0, n).Value() == z.Value()
  {
    hide Val, Shl;
    SpanSplit(z, n);
    OneDigit(z.Sub(n, 1));
    var t := z.Sub(n, 1).Value();
    ShlIsProduct(t, n);
    if t >= 1 { MulMonotone(1, t, Pow(n)); }
    ShlUnit(n);
  }

  lemma AtMostTwo(w: int, q0: int, q: int, y: int)
    requires -2 * y < w - q0 * y && w - q * y < y && 0 < y
    ensures q0 - q <= 2
  {
    if q0 >= q + 3 {
      MulMonotone(q + 3, q0, y);
      MulAdd2(q, 3, 0, y);
    }
  }

  //----------------------------------------------------------------------------
  // bigdivrem1

  /** `bigdivrem1`: the quotient replaces the digits of z from y.len on, the remainder
      those below. */
  method DivRem1(z: Span, y: Span)
    requires z.Valid() && y.Valid() && 0 < y.len < z.len && z.Disjoint(y)
    requires y.Digits()[y.len - 1] >= 0x8000_0000 && z.Sub(z.len - y.len, y.len).Value() < y.Value()
    modifies z.buf
    ensures z.Sub(0, y.len).Value() < old(y.Value())
    ensures old(z.Value()) == z.Sub(y.len, z.len - y.len).Value() * old(y.Value()) + z.Sub(0, y.len).Value()
    ensures forall s: Span {:trigger s.Digits()} ::
      old(allocated(s)) && s.Valid() && s.Disjoint(z) ==> s.Digits() == old(s.Digits())
  {
    hide Val, Shl, Span.Digits;
    ghost var y0, n := y.Value(), y.len;
    var zn := z.len;
    EmptySpan(z.Sub(z.len, 0));
    ShlUnit(z.len - n);
    while y.len < zn
      invariant y.len <= zn <= z.len
      invariant z.Sub(zn - n, n).Value() < y0
      invariant old(z.Value()) == z.Sub(0, zn).Value() + y0 * Shl(z.Sub(zn, z.len - zn).Value(), zn - n)
      invariant forall s: Span {:trigger s.Digits()} ::
        old(allocated(s)) && s.Valid() && s.Disjoint(z) ==> s.Digits() == old(s.Digits())
    {
      DivRound(z, zn, y);
      zn := zn - 1;
    }
    assert z.Sub(0, n) == z.Sub(zn - n, n);
    ShlZero(z.Sub(n, z.len - n).Value());
  }

  lemma ShlZero(x: int)
    ensures Shl(x, 0) == x
  {}

  lemma EmptySpan(z: Span)
    requires z.Valid() && z.len == 0
    ensures z.Value() == 0
  {}

  /** The round for the window ending at zn, in the whole buffer. */
  method DivRound(z: Span, zn: nat, y: Span)
    requires z.Valid() && y.Valid() && 0 < y.len < zn <= z.len && z.Disjoint(y)
    requires y.Digits()[y.len - 1] >= 0x8000_0000 && z.Sub(zn - y.len, y.len).Value() < y.Value()
    modifies z.buf
    ensures z.Sub(zn - 1 - y.len, y.len).Value() < old(y.Value())
    ensures old(z.Sub(0, zn).Value() + y.Value() * Shl(z.Sub(zn, z.len - zn).Value(), zn - y.len))
            == z.Sub(0, zn - 1).Value() + old(y.Value()) * Shl(z.Sub(zn - 1, z.len - zn + 1).Value(), zn - 1 - y.len)
    ensures forall s: Span {:trigger s.Digits()} ::
      old(allocated(s)) && s.Valid() && s.Disjoint(z) ==> s.Digits() == old(s.Digits())
  {
    hide Val, Shl, Span.Digits;
    var n, k := y.len, zn - 1 - y.len;
    var low, win, quo := z.Sub(0, k), z.Sub(k, n + 1), z.Sub(zn, z.len - zn);
    ghost var y0, l, w, q := y.Value(), low.Value(), win.Value(), quo.Value();
    SpanSplit(z.Sub(0, zn), k);
    SpanSplit(win, 1);
    OneDigit(win.Sub(0, 1));
    assert win.Sub(1, n) == z.Sub(zn - n, n);
    ShlOne(win.Sub(1, n).Value());
    ghost var adds := DivStep(win, y);
    SpanSplit(z.Sub(0, zn - 1), k);
    SpanSplit(z.Sub(zn - 1, z.len - zn + 1), 1);
    assert win.Sub(0, n) == z.Sub(0, zn - 1).Sub(k, n);
    assert win.Sub(n, 1) == z.Sub(zn - 1, z.len - zn + 1).Sub(0, 1);
    DivRoundAlgebra(y0, l, w, q, win.Sub(n, 1).Value(), win.Sub(0, n).Value(), k);
  }

  lemma DivRoundAlgebra(y: int, l: int, w: int, q: int, d: int, r: int, k: nat)
    requires w == d * y + r
    ensures l + Shl(w, k) + y * Shl(q, k + 1) == l + Shl(r, k) + y * Shl(d + Shl(q, 1), k)
  {
    ShlAdd(d * y, r, k);
    ShlScale(y, d, k);
    ShlShl(q, 1, k);
    ShlAdd(d, Shl(q, 1), k);
    MulDistrib(y, Shl(d, k), Shl(q, k + 1));
  }

  //----------------------------------------------------------------------------
  // bigdivrem_single1

  /** The remainder after the digits from place i on, and the quotient digit at place i. */
  ghost function RemFrom(xs: seq<Digit>, i: nat, higher: Digit, y: Digit): (r: Digit)
    requires i <= |xs| && higher < y
    ensures r < y
    decreases |xs| - i
  {
    if i == |xs| then higher else (0x1_0000_0000 * (RemFrom(xs, i + 1, higher, y) as int) + xs[i]) % y
  }

  ghost function QuotAt(xs: seq<Digit>, i: nat, higher: Digit, y: Digit): (q: int)
    requires i < |xs| && higher < y
  {
    (0x1_0000_0000 * (RemFrom(xs, i + 1, higher, y) as int) + xs[i]) / y
  }

  lemma QuotIsDigit(xs: seq<Digit>, i: nat, higher: Digit, y: Digit)
    requires i < |xs| && higher < y
    ensures 0 <= QuotAt(xs, i, higher, y) < 0x1_0000_0000
    ensures QuotAt(xs, i, higher, y) * y + RemFrom(xs, i, higher, y) ==
            0x1_0000_0000 * (RemFrom(xs, i + 1, higher, y) as int) + xs[i]
  {
    var t: int, d: int := 0x1_0000_0000 * (RemFrom(xs, i + 1, higher, y) as int) + xs[i], y;
    QuotDigitBounds(t, d, t / d, t % d);
  }

  lemma QuotDigitBounds(t: int, d: int, q: int, r: int)
    requires 0 <= t < 0x1_0000_0000 * d && 0 < d && t == q * d + r && 0 <= r < d
    ensures 0 <= q < 0x1_0000_0000
  {
    if q < 0 { MulMonotone(q, -1, d); }
    if q >= 0x1_0000_0000 { MulMonotone(0x1_0000_0000, q, d); }
  }

  method SingleLoop(q: Span, x: Span, higher: Digit, y: Digit) returns (r: Digit)
    requires q.Valid() && x.Valid() && q.len == x.len && q.AheadOf(x) && higher < y
    modifies q.buf
    ensures r == RemFrom(old(x.Digits()), 0, higher, y)
    ensures forall j :: 0 <= j < q.buf.Length && !(q.off <= j < q.off + q.len) ==> q.buf[j] == old(q.buf[j])
    ensures forall j :: q.off <= j < q.off + q.len ==> q.buf[j] == QuotAt(old(x.Digits()), j - q.off, higher, y)
  {
    hide Span.Digits, QuotAt, RemFrom;
    ghost var xs := x.Digits();
    SpanElements(x);
    var t2: DDigit := higher;
    var i := x.len;
    assert t2 == RemFrom(xs, i, higher, y) by { RemStart(xs, higher, y); }
    while 0 < i
      invariant 0 <= i <= x.len && t2 == RemFrom(xs, i, higher, y)
      invariant forall j :: 0 <= j < q.buf.Length && !(q.off + i <= j < q.off + q.len) ==> q.buf[j] == old(q.buf[j])
      invariant forall j :: q.off + i <= j < q.off + q.len ==> q.buf[j] == QuotAt(xs, j - q.off, higher, y)
    {
      i := i - 1;
      RemStep(xs, i, higher, y);
      QuotIsDigit(xs, i, higher, y);
      t2 := 0x1_0000_0000 * t2 + x.buf[x.off + i];
      q.buf[q.off + i] := t2 / y;
      t2 := t2 % y;
    }
    r := t2;
  }

  lemma RemStart(xs: seq<Digit>, higher: Digit, y: Digit)
    requires higher < y
    ensures RemFrom(xs, |xs|, higher, y) == higher
  {}

  lemma RemStep(xs: seq<Digit>, i: nat, higher: Digit, y: Digit)
    requires i < |xs| && higher < y
    ensures var t := 0x1_0000_0000 * (RemFrom(xs, i + 1, higher, y) as int) + xs[i];
            RemFrom(xs, i, higher, y) == t % y && QuotAt(xs, i, higher, y) == t / y
  {}

  lemma {:induction false} SingleValue(qd: seq<Digit>, xs: seq<Digit>, higher: Digit, y: Digit, i: nat)
    requires |qd| == |xs| && i <= |xs| && higher < y
    requires forall j :: i <= j < |xs| ==> qd[j] == QuotAt(xs, j, higher, y)
    ensures Val(qd[i..]) * y + RemFrom(xs, i, higher, y) == Val(xs[i..]) + Shl(higher, |xs| - i)
    decreases |xs| - i
  {
    if i < |xs| {
      SingleValue(qd, xs, higher, y, i + 1);
      assert qd[i..][1..] == qd[i + 1..] && xs[i..][1..] == xs[i + 1..];
      QuotIsDigit(xs, i, higher, y);
      SingleJoin(qd[i], Val(qd[i + 1..]), y, RemFrom(xs, i + 1, higher, y), xs[i], Val(xs[i + 1..]));
    }
  }

  lemma SingleJoin(q: int, q1: int, y: int, r: int, x: int, x1: int)
    ensures (q + 0x1_0000_0000 * q1) * y == q * y + 0x1_0000_0000 * (q1 * y)
  {}

  /** `bigdivrem_single1`: the buffer x with `higher` above it, divided by one digit.  A
      power of two is divided by shifting and masking. */
  method DivSingle(q: Span, x: Span, higher: Digit, y: Digit) returns (r: Digit)
    requires q.Valid() && x.Valid() && 0 < x.len == q.len && q.AheadOf(x) && higher < y
    modifies q.buf
    ensures r < y && q.Value() * y + r == old(x.Value()) + Shl(higher, q.len)
    ensures forall s: Span {:trigger s.Digits()} ::
      old(allocated(s)) && s.Valid() && s.Disjoint(q) ==> s.Digits() == old(s.Digits())
  {
    hide Val, Shl, QuotAt, RemFrom, IsPow2, And, BitLength, Pow2;
    ghost var xs := x.Digits();
    if IsPow2(y) {
      ghost var k := BitLength(y) - 1;
      IsPow2Value(y);
      Pow2Values();
      BitLengthLe(y, 32);
      AndMask(xs[0], k);
      r := And(x.buf[x.off], y - 1);
      SmallRshift(q, x, BitLength(y) - 1, higher);
      SmallModulus(higher, y);
    } else {
      r := SingleLoop(q, x, higher, y);
      SingleValue(q.Digits(), xs, higher, y, 0);
      assert q.Digits()[0..] == q.Digits() && xs[0..] == xs;
    }
  }

  lemma SmallModulus(x: int, y: int)
    requires 0 <= x < y
    ensures x % y == x
  {
    DivModUnique(x, y, 0, x);
  }

  //----------------------------------------------------------------------------
  // bigdivrem_restoring

  lemma TopLess(zs: seq<Digit>, ys: seq<Digit>)
    requires |zs| == |ys| > 0 && zs[|zs| - 1] < ys[|ys| - 1]
    ensures Val(zs) < Val(ys)
  {
    hide Val, Shl;
    var m := |ys| - 1;
    ValSplit(ys, m);
    ValSplit(zs, m);
    assert ys[m..] == [ys[m]] && zs[m..] == [zs[m]];
    ValSingle(ys[m]);
    ValSingle(zs[m]);
    ValBound(zs[..m]);
    ShlIsProduct(ys[m], m);
    ShlIsProduct(zs[m], m);
    MulMonotone(zs[m] + 1, ys[m], Pow(m));
    MulAdd2(zs[m], 1, 0, Pow(m));
  }

  /** Division by y*b^k from division by y of the part above digit k. */
  lemma LowZeros(x: int, xl: int, q: int, y: int, r: int, k: nat)
    requires x == q * y + r && r < y && 0 <= xl < Pow(k)
    ensures xl + Shl(x, k) == q * Shl(y, k) + (xl + Shl(r, k))
    ensures xl + Shl(r, k) < Shl(y, k)
  {
    ShlScale(q, y, k);
    ShlAdd(q * y, r, k);
    ShlIsProduct(r, k);
    ShlIsProduct(y, k);
    MulMonotone(r + 1, y, Pow(k));
    MulAdd2(r, 1, 0, Pow(k));
  }

  /** The number of low zero digits of y. */
  method CountLowZeros(y: Span) returns (k: nat)
    requires y.Valid() && 0 < y.len && y.Digits()[y.len - 1] != 0
    ensures k < y.len && y.Digits()[k] != 0 && forall j :: 0 <= j < k ==> y.Digits()[j] == 0
  {
    k := 0;
    while y.buf[y.off + k] == 0
      invariant k < y.len && forall j :: 0 <= j < k ==> y.Digits()[j] == 0
      decreases y.len - k
    {
      assert y.Digits()[k] == 0;
      k := k + 1;
    }
    assert y.Digits()[k] == y.buf[y.off + k];
  }

  /** `bigdivrem_restoring`: the quotient goes to the digits from y.len on, the remainder
      to those below; low zero digits of y are skipped, and a divisor with one nonzero
      digit is divided by that digit, source and target overlapping by one place. */
  method Restoring(z: Span, y: Span)
    requires z.Valid() && y.Valid() && 0 < y.len < z.len && z.Disjoint(y)
    requires y.Digits()[y.len - 1] >= 0x8000_0000 && z.Digits()[z.len - 1] < y.Digits()[y.len - 1]
    modifies z.buf
    ensures z.Sub(0, y.len).Value() < old(y.Value())
    ensures old(z.Value()) == z.Sub(y.len, z.len - y.len).Value() * old(y.Value()) + z.Sub(0, y.len).Value()
    ensures forall s: Span {:trigger s.Digits()} ::
      old(allocated(s)) && s.Valid() && s.Disjoint(z) ==> s.Digits() == old(s.Digits())
  {
    var k := CountLowZeros(y);
    LowZeroValue(y, k);
    if k + 1 == y.len {
      RestoreSingle(z, y, k);
    } else {
      RestoreLong(z, y, k);
    }
  }

  lemma LowZeroValue(y: Span, k: nat)
    requires y.Valid() && k < y.len && forall j :: 0 <= j < k ==> y.Digits()[j] == 0
    ensures y.Value() == Shl(y.Sub(k, y.len - k).Value(), k)
    ensures k + 1 == y.len ==> y.Sub(k, 1).Value() == y.Digits()[k]
  {
    hide Val, Shl;
    SpanSplit(y, k);
    SpanSub(y, 0, k);
    ValZeros(y.Sub(0, k).Digits());
    if k + 1 == y.len { OneDigit(y.Sub(k, 1)); }
  }

  method RestoreLong(z: Span, y: Span, k: nat)
    requires z.Valid() && y.Valid() && 0 < y.len < z.len && z.Disjoint(y) && k < y.len
    requires y.Digits()[y.len - 1] >= 0x8000_0000 && z.Digits()[z.len - 1] < y.Digits()[y.len - 1]
    requires y.Value() == Shl(y.Sub(k, y.len - k).Value(), k)
    modifies z.buf
    ensures z.Sub(0, y.len).Value() < old(y.Value())
    ensures old(z.Value()) == z.Sub(y.len, z.len - y.len).Value() * old(y.Value()) + z.Sub(0, y.len).Value()
    ensures forall s: Span {:trigger s.Digits()} ::
      old(allocated(s)) && s.Valid() && s.Disjoint(z) ==> s.Digits() == old(s.Digits())
  {
    hide Val, Shl, Span.Digits;
    var zl, zh, yh := z.Sub(0, k), z.Sub(k, z.len - k), y.Sub(k, y.len - k);
    SpanSplit(z, k);
    SpanBound(zl);
    var m := yh.len;
    SpanTops(z, y, m);
    assert z.Sub(z.len - m, m) == zh.Sub(zh.len - m, m) && y.Sub(y.len - m, m) == yh;
    ghost var x, l, y1 := zh.Value(), zl.Value(), yh.Value();
    DivRem1(zh, yh);
    var r := z.Sub(0, y.len);
    SpanSplit(r, k);
    assert r.Sub(k, m) == zh.Sub(0, m) && r.Sub(0, k) == zl;
    assert zh.Sub(m, zh.len - m) == z.Sub(y.len, z.len - y.len);
    LowZeros(x, l, zh.Sub(m, zh.len - m).Value(), y1, zh.Sub(0, m).Value(), k);
  }

  lemma SpanTops(z: Span, y: Span, m: nat)
    requires z.Valid() && y.Valid() && 0 < m <= y.len < z.len && z.Digits()[z.len - 1] < y.Digits()[y.len - 1]
    ensures z.Sub(z.len - m, m).Value() < y.Sub(y.len - m, m).Value()
    ensures y.Sub(y.len - m, m).Digits()[m - 1] == y.Digits()[y.len - 1]
  {
    TopLess(z.Sub(z.len - m, m).Digits(), y.Sub(y.len - m, m).Digits());
  }

  method RestoreSingle(z: Span, y: Span, k: nat)
    requires z.Valid() && y.Valid() && 0 < y.len < z.len && z.Disjoint(y) && k + 1 == y.len
    requires z.Digits()[z.len - 1] < y.Digits()[k] && y.Value() == Shl(y.Digits()[k], k)
    modifies z.buf
    ensures z.Sub(0, y.len).Value() < old(y.Value())
    ensures old(z.Value()) == z.Sub(y.len, z.len - y.len).Value() * old(y.Value()) + z.Sub(0, y.len).Value()
    ensures forall s: Span {:trigger s.Digits()} ::
      old(allocated(s)) && s.Valid() && s.Disjoint(z) ==> s.Digits() == old(s.Digits())
  {
    hide Val, Shl, Span.Digits;
    SpanElements(z);
    SpanElements(y);
    var d := y.buf[y.off + k];
    var n := z.len - y.len;
    var zl, q, x, zr := z.Sub(0, k), z.Sub(y.len, n), z.Sub(k, n), z.Sub(k, 1);
    var h := z.Sub(k, n + 1);
    SpanSplit(z, k);
    SpanBound(zl);
    SpanSplit(h, n);
    assert h.Sub(0, n) == x;
    OneDigit(h.Sub(n, 1));
    ghost var l, v := zl.Value(), h.Value();
    var r := DivSingle(q, x, z.buf[z.off + z.len - 1], d);
    Fill(zr, r);
    OneDigit(zr);
    assert zr.Digits()[0] == r;
    SpanSplit(z.Sub(0, y.len), k);
    assert z.Sub(0, y.len).Sub(k, 1) == zr && z.Sub(0, y.len).Sub(0, k) == zl;
    LowZeros(v, l, q.Value(), d, r, k);
  }

  //----------------------------------------------------------------------------
  // bary_divmod_normal

  /** The number of leading zero bits of a digit. */
  function Nlz(d: Digit): int { 32 - BitLength(d) }

  /** The shift that sets the high bit of the top digit neither overflows it nor leaves a
      smaller one. */
  lemma NlzShift(d: Digit)
    requires d != 0
    ensures 0 <= Nlz(d) < 32 && Pow2(Nlz(d)) * (d as int + 1) <= 0x1_0000_0000 && Pow2(Nlz(d)) * d >= 0x8000_0000
  {
    hide Pow2, BitLength;
    var k := BitLength(d);
    Pow2Values();
    BitLengthBounds(d);
    BitLengthLe(d, 32);
    Pow2Add(32 - k, k);
    Pow2Add(32 - k, k - 1);
    MulMonotone(d + 1, Pow2(k), Pow2(32 - k));
    MulMonotone(Pow2(k - 1), d, Pow2(32 - k));
  }

  /** A number with n digits of at least h*b^(n-1) has a top digit of at least h. */
  lemma TopDigitAtLeast(ys: seq<Digit>, h: Digit)
    requires |ys| > 0 && Shl(h, |ys| - 1) <= Val(ys)
    ensures ys[|ys| - 1] >= h
  {
    hide Val, Shl;
    var m := |ys| - 1;
    ValSplit(ys, m);
    assert ys[m..] == [ys[m]];
    ValSingle(ys[m]);
    ValBound(ys[..m]);
    ShlIsProduct(ys[m], m);
    ShlIsProduct(h, m);
    if ys[m] < h { MulMonotone(ys[m] + 1, h, Pow(m)); MulAdd2(ys[m], 1, 0, Pow(m)); }
  }

  /** The shifted divisor keeps its length and has the high bit set. */
  lemma NormalizedDivisor(ys: seq<Digit>, vs: seq<Digit>, c: int, p: int)
    requires |vs| == |ys| > 0 && ys[|ys| - 1] != 0 && 0 <= Nlz(ys[|ys| - 1]) && p == Pow2(Nlz(ys[|ys| - 1]))
    requires Val(vs) + Shl(c, |vs|) == p * Val(ys) && 0 <= c
    ensures c == 0 && vs[|vs| - 1] >= 0x8000_0000
  {
    hide Val, Shl, Pow2, Nlz;
    var m := |ys| - 1;
    var d: int, l := ys[m], Val(ys[..m]);
    NlzShift(ys[m]);
    ValSplit(ys, m);
    assert ys[m..] == [ys[m]];
    ValSingle(ys[m]);
    ValBound(ys[..m]);
    ValBound(vs);
    ShlIsProduct(d, m);
    NormalizedBounds(p, d, l, Val(ys), Pow(m));
    NoCarryOut(Val(vs), p * Val(ys), c, m + 1);
    ShlUnit(|vs|);
    ShlIsProduct(0x8000_0000, m);
    TopDigitAtLeast(vs, 0x8000_0000);
  }

  lemma NormalizedBounds(p: int, d: int, l: int, y: int, w: int)
    requires p > 0 && 0 <= l < w && y == l + d * w && p * (d + 1) <= 0x1_0000_0000 && p * d >= 0x8000_0000
    ensures 0x8000_0000 * w <= p * y < 0x1_0000_0000 * w
  {
    MulMonotone(0x8000_0000, p * d, w);
    MulMonotone(p * (d + 1), 0x1_0000_0000, w);
    assert p * y == p * l + p * d * w by { assert p * (d * w) == p * d * w; MulDistrib(p, l, d * w); }
    assert p * (d + 1) * w == p * d * w + p * w by { MulDistrib(p, d, 1); MulAdd2(p * d, p, 0, w); }
    MulMonotone(l, w - 1, p);
  }

  lemma NoCarryOut(z: int, v: int, c: int, n: nat)
    requires 0 <= z && 0 <= c && z + Shl(c, n) == v < Pow(n)
    ensures c == 0
  {
    ShlIsProduct(c, n);
    if c >= 1 { MulMonotone(1, c, Pow(n)); }
  }

  /** Normalisation: both operands times 2^shift, x with one more digit. */
  method Normalise(z: Span, v: Span, x: Span, y: Span, shift: nat)
    requires z.Valid() && v.Valid() && x.Valid() && y.Valid() && z.len == x.len + 1 && v.len == y.len && 0 < y.len
    requires z.Disjoint(x) && z.Disjoint(y) && v.Disjoint(y) && v.Disjoint(z) && v.Disjoint(x)
    requires y.Digits()[y.len - 1] != 0 && shift == Nlz(y.Digits()[y.len - 1]) && shift < BITSPERDIG
    modifies z.buf, v.buf
    ensures z.Value() == Pow2(shift) * old(x.Value()) && v.Value() == Pow2(shift) * old(y.Value())
    ensures z.Digits()[z.len - 1] < 0x8000_0000 <= v.Digits()[v.len - 1]
    ensures forall s: Span {:trigger s.Digits()} ::
      old(allocated(s)) && s.Valid() && s.Disjoint(z) && s.Disjoint(v) ==> s.Digits() == old(s.Digits())
  {
    hide Val, Shl, Span.Digits, Pow2, Nlz;
    ghost var ys, xn := y.Digits(), x.len;
    var zl, zt := z.Sub(0, x.len), z.Sub(x.len, 1);
    ShiftFactor(shift);
    var c := SmallLshift(zl, x, shift);
    Fill(zt, c);
    OneDigit(zt);
    assert zt.Digits()[0] == c;
    var c1 := SmallLshift(v, y, shift);
    NormalizedDivisor(ys, v.Digits(), c1, Pow2(shift));
    SpanSplit(z, x.len);
    ShlUnit(y.len);
    OneDigit(zt);
    SpanTails(z);
    assert z.Digits()[xn..] == zt.Digits();
    assert z.Digits()[xn] == z.Digits()[xn..][0];
  }

  /** A result buffer, or NULL. */
  datatype Target = Null | Into(s: Span) {
    predicate Fits(n: nat, x: Span, y: Span) {
      Into? ==> s.Valid() && n <= s.len && s.Disjoint(x) && s.Disjoint(y)
    }
    function Bufs(): set<object> { if Into? then {s.buf} else {} }
    predicate Disjoint(t: Span) { Into? ==> s.Disjoint(t) }
  }

  /** The quotient and remainder of p*x by p*y. */
  lemma ScaledDivision(x: int, y: int, p: int, q: int, r: int, r0: int, d: int)
    requires 0 < p && 0 < y && p * x == q * (p * y) + r && 0 <= r < p * y
    requires r0 * p + d == r && 0 <= d < p
    ensures q == x / y && r0 == x % y && d == 0
  {
    assert q * (p * y) == p * (q * y);
    var t := x - q * y;
    assert r == p * t by { MulDistrib(p, q * y, t); }
    assert (t - r0) * p == d;
    if t - r0 >= 1 { MulMonotone(1, t - r0, p); }
    if t - r0 <= -1 { MulMonotone(t - r0, -1, p); }
    if t < 0 { MulMonotone(t, -1, p); }
    if t >= y { MulMonotone(y, t, p); }
    DivModUnique(x, y, q, t);
  }

  /** The buffers the division works in: a long enough quotient buffer, the remainder
      buffer for the shifted divisor, new ones otherwise. */
  method Workspace(q: Target, r: Target, x: Span, y: Span) returns (z: Span, v: Span)
    requires x.Valid() && y.Valid() && 0 < y.len
    requires q.Fits(1, x, y) && r.Fits(y.len, x, y) && (q.Into? && r.Into? ==> q.s.Disjoint(r.s))
    ensures z.Valid() && v.Valid() && z.len == x.len + 1 && v.len == y.len && v.Disjoint(z)
    ensures z.Disjoint(x) && z.Disjoint(y) && v.Disjoint(x) && v.Disjoint(y) && r.Disjoint(z)
    ensures fresh(z.buf) || (q.Into? && z.len <= q.s.len && z == q.s.Sub(0, z.len))
    ensures fresh(v.buf) || (r.Into? && v == r.s.Sub(0, v.len))
  {
    var zn := x.len + 1;
    if q.Into? && zn <= q.s.len {
      z := q.s.Sub(0, zn);
    } else {
      var w := new Digit[zn];
      z := Span(w, 0, zn);
    }
    if r.Into? {
      v := r.s.Sub(0, y.len);
    } else {
      var w := new Digit[y.len];
      v := Span(w, 0, y.len);
    }
  }

  /** The dividend is copied and both operands are normalised; when the divisor has its
      high bit set already, it is used as it is. */
  method Prepare(q: Target, r: Target, x: Span, y: Span, shift: nat) returns (z: Span, v: Span)
    requires x.Valid() && y.Valid() && 0 < y.len && y.Digits()[y.len - 1] != 0
    requires shift == Nlz(y.Digits()[y.len - 1]) && shift < BITSPERDIG
    requires q.Fits(1, x, y) && r.Fits(y.len, x, y) && (q.Into? && r.Into? ==> q.s.Disjoint(r.s))
    modifies q.Bufs(), r.Bufs()
    ensures z.Valid() && v.Valid() && z.len == x.len + 1 && v.len == y.len && v.Disjoint(z) && r.Disjoint(z)
    ensures fresh(z.buf) || (q.Into? && z.len <= q.s.len && z == q.s.Sub(0, z.len))
    ensures z.Value() == Pow2(shift) * old(x.Value()) && v.Value() == Pow2(shift) * old(y.Value())
    ensures z.Digits()[z.len - 1] < 0x8000_0000 <= v.Digits()[v.len - 1]
    ensures forall s: Span {:trigger s.Digits()} ::
      old(allocated(s)) && s.Valid() && q.Disjoint(s) && r.Disjoint(s) ==> s.Digits() == old(s.Digits())
  {
    hide Val, Shl, Span.Digits, Pow2, Nlz;
    z, v := Workspace(q, r, x, y);
    if shift != 0 {
      Normalise(z, v, x, y, shift);
    } else {
      NoShift(y.Digits());
      CopyRest(z, x);
      CopyValue(z.Digits(), x.Digits());
      v := y;
    }
  }

  lemma NoShift(ys: seq<Digit>)
    requires |ys| > 0 && ys[|ys| - 1] != 0 && Nlz(ys[|ys| - 1]) == 0
    ensures Pow2(0) == 1 && ys[|ys| - 1] >= 0x8000_0000
  {
    NlzShift(ys[|ys| - 1]);
  }

  /** The remainder is shifted back, or copied, and filled up with zeros. */
  method StoreRemainder(r: Span, z: Span, shift: nat)
    requires r.Valid() && z.Valid() && 0 < z.len <= r.len && r.Disjoint(z) && shift < BITSPERDIG
    modifies r.buf
    ensures r.Value() * Pow2(shift) + z.Digits()[0] % Pow2(shift) == old(z.Value())
    ensures forall s: Span {:trigger s.Digits()} ::
      old(allocated(s)) && s.Valid() && s.Disjoint(r) ==> s.Digits() == old(s.Digits())
  {
    hide Val, Shl, Span.Digits, Pow2;
    var n := z.len;
    if shift != 0 {
      var rl, rh := r.Sub(0, n), r.Sub(n, r.len - n);
      SmallRshift(rl, z, shift, 0);
      Fill(rh, 0);
      ValZeros(rh.Digits());
      SpanSplit(r, n);
      SmallModulus(0, Pow2(shift));
      ShlUnit(n);
    } else {
      CopyRest(r, z);
      CopyValue(r.Digits(), z.Digits());
      PowZero();
    }
  }

  /** The quotient is moved down to the start of its buffer and filled up with zeros. */
  method StoreQuotient(q: Span, z: Span)
    requires q.Valid() && z.Valid() && z.len <= q.len && q.BehindOf(z)
    modifies q.buf
    ensures q.Value() == old(z.Value())
    ensures forall s: Span {:trigger s.Digits()} ::
      old(allocated(s)) && s.Valid() && s.Disjoint(q) ==> s.Digits() == old(s.Digits())
  {
    ghost var zs := z.Digits();
    CopyRest(q, z);
    CopyValue(q.Digits(), zs);
  }

  /** `bary_divmod_normal`: quotient and remainder of x by y, each into its buffer if one
      is given. */
  method DivModNormal(q: Target, r: Target, x: Span, y: Span)
    requires x.Valid() && y.Valid() && 0 < y.len && y.Digits()[y.len - 1] != 0
    requires y.len < x.len || (x.len == y.len && y.Digits()[y.len - 1] <= x.Digits()[x.len - 1])
    requires q.Fits(x.len - y.len + 1, x, y) && r.Fits(y.len, x, y)
    requires q.Into? && r.Into? ==> q.s.Disjoint(r.s)
    modifies q.Bufs(), r.Bufs()
    ensures old(y.Value()) > 0
    ensures q.Into? ==> q.s.Value() == old(x.Value()) / old(y.Value())
    ensures r.Into? ==> r.s.Value() == old(x.Value()) % old(y.Value())
    ensures forall s: Span {:trigger s.Digits()} ::
      old(allocated(s)) && s.Valid() && q.Disjoint(s) && r.Disjoint(s) ==> s.Digits() == old(s.Digits())
  {
    hide Val, Shl, Span.Digits, Pow2, Nlz;
    SpanElements(y);
    NlzShift(y.buf[y.off + y.len - 1]);
    var shift := Nlz(y.buf[y.off + y.len - 1]);
    PositiveTop(y.Digits());
    var n := y.len;
    ghost var x0, y0, p := x.Value(), y.Value(), Pow2(shift);
    var z, v := Prepare(q, r, x, y, shift);
    Restoring(z, v);
    var zr, zq := z.Sub(0, n), z.Sub(n, z.len - n);
    ghost var q1, r1, d := zq.Value(), zr.Value(), zr.Digits()[0] % p;
    RemainderExact(x0, y0, p, q1, r1);
    if r.Into? {
      StoreRemainder(r.s, zr, shift);
      ScaledDivision(x0, y0, p, q1, r1, r.s.Value(), d);
    }
    if q.Into? {
      StoreQuotient(q.s, zq);
    }
  }

  lemma RemainderExact(x: int, y: int, p: int, q: int, r: int)
    requires 0 < p && 0 < y && p * x == q * (p * y) + r && 0 <= r < p * y
    ensures q == x / y
  {
    DivSmaller(r, p);
    ScaledDivision(x, y, p, q, r, r / p, r % p);
  }

  lemma PositiveTop(ys: seq<Digit>)
    requires |ys| > 0 && ys[|ys| - 1] != 0
    ensures Val(ys) > 0
  {
    if Val(ys) == 0 { ValZeroDigits(ys); }
  }
}

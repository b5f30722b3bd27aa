/** What multiplication does before choosing an algorithm: zero digits at both ends are
    dropped and one-digit operands are dealt with. */
module MulPrecheck {
  import opened Bits
  import opened Digits
  import opened AddSub
  import opened Shift
  import opened MulKernel
  import opened KaratsubaSteps

  /** s lies within t. */
  predicate Within(s: Span, t: Span)
  {
    s.buf == t.buf && t.off <= s.off && s.off + s.len <= t.off + t.len
  }

  /** `bary_mul_single`. */
  method MulSingle(z: Span, x: Digit, y: Digit)
    requires z.Valid() && 2 <= z.len
    modifies z.buf
    ensures z.Value() == x * y
    ensures forall s: Span {:trigger s.Digits()} ::
      old(allocated(s)) && s.Valid() && s.Disjoint(z) ==> s.Digits() == old(s.Digits())
  {
    hide Val, Shl;
    DigitProduct(x, y);
    var n: DDigit := x as int * y as int;
    z.buf[z.off] := Lo(n);
    z.buf[z.off + 1] := Dn(n);
    var zl, zh := z.Sub(0, 2), z.Sub(2, z.len - 2);
    PairValue(zl);
    Fill(zh, 0);
    ValZeros(zh.Digits());
    SpanSplit(z, 2);
    ShlUnit(2);
  }

  /** `bary_short_mul`. */
  method ShortMul(z: Span, x: Span, y: Span)
    requires z.Valid() && x.Valid() && y.Valid() && x.len + y.len <= z.len
    requires z.Disjoint(x) && z.Disjoint(y)
    modifies z.buf
    ensures z.Value() == old(x.Value()) * old(y.Value())
    ensures forall s: Span {:trigger s.Digits()} ::
      old(allocated(s)) && s.Valid() && s.Disjoint(z) ==> s.Digits() == old(s.Digits())
  {
    hide Val, Shl, Span.Digits;
    if x.len == 1 && y.len == 1 {
      OneDigitValue(x);
      OneDigitValue(y);
      MulSingle(z, x.buf[x.off], y.buf[y.off]);
    } else {
      MulNormal(z, x, y);
    }
  }

  /** The operand without its high and low zero digits, and how many low ones there were. */
  method Strip(x: Span) returns (t: Span, k: nat)
    requires x.Valid()
    ensures t.Valid() && Within(t, x) && k + t.len <= x.len
    ensures x.Value() == Shl(t.Value(), k)
    ensures t.len > 0 ==> t.Digits()[0] != 0 && t.Digits()[t.len - 1] != 0
  {
    hide Span.Digits, Val, Shl;
    ghost var xs := x.Digits();
    SpanElements(x);
    var m: nat := x.len;
    while 0 < m && x.buf[x.off + m - 1] == 0
      invariant m <= x.len && forall j :: m <= j < x.len ==> xs[j] == 0
    {
      m := m - 1;
    }
    k := 0;
    while k < m && x.buf[x.off + k] == 0
      invariant k <= m && forall j :: 0 <= j < k ==> xs[j] == 0
      invariant k < m ==> xs[m - 1] != 0
    {
      k := k + 1;
    }
    t := x.Sub(k, m - k);
    StripValue(x, k, m);
    SpanSub(x, k, m - k);
  }

  lemma StripValue(x: Span, k: nat, m: nat)
    requires x.Valid() && k <= m <= x.len
    requires forall j :: 0 <= j < k ==> x.Digits()[j] == 0
    requires forall j :: m <= j < x.len ==> x.Digits()[j] == 0
    ensures x.Value() == Shl(x.Sub(k, m - k).Value(), k)
  {
    hide Val, Shl;
    SpanSplit(x, m);
    SpanSub(x, m, x.len - m);
    ValZeros(x.Digits()[m..]);
    var h := x.Sub(0, m);
    SpanSplit(h, k);
    SpanSub(x, 0, k);
    ValZeros(x.Digits()[0..k]);
    assert h.Sub(0, k) == x.Sub(0, k) && h.Sub(k, m - k) == x.Sub(k, m - k);
    ShlUnit(m);
  }

  /** An operand of at most one digit x[0], y at least as long. */
  method MulByDigit(z: Span, x: Span, y: Span)
    requires z.Valid() && x.Valid() && y.Valid() && x.len <= 1 && x.len <= y.len && x.len + y.len <= z.len
    requires z.Disjoint(x) && z.Disjoint(y) && (x.len == 1 ==> x.Digits()[0] != 0)
    modifies z.buf
    ensures z.Value() == old(x.Value()) * old(y.Value())
    ensures forall s: Span {:trigger s.Digits()} ::
      old(allocated(s)) && s.Valid() && s.Disjoint(z) ==> s.Digits() == old(s.Digits())
  {
    hide Val, Shl, Span.Digits, IsPow2, BitLength;
    if x.len == 0 {
      ValZeros(x.Digits());
      Fill(z, 0);
      ValZeros(z.Digits());
      return;
    }
    OneDigitValue(x);
    SpanElements(x);
    var d := x.buf[x.off];
    if d == 1 {
      CopyRest(z, y);
      CopyValue(z.Digits(), y.Digits());
    } else if IsPow2(d) {
      MulByPow2(z, d, y);
    } else if y.len == 1 && y.buf[y.off] == 1 {
      OneDigitValue(y);
      CopyRest(z, x);
      CopyValue(z.Digits(), x.Digits());
    } else {
      MulNormal(z, x, y);
    }
  }

  method MulByPow2(z: Span, d: Digit, y: Span)
    requires z.Valid() && y.Valid() && y.len + 1 <= z.len && z.Disjoint(y) && d != 0 && IsPow2(d)
    modifies z.buf
    ensures z.Value() == d * old(y.Value())
    ensures forall s: Span {:trigger s.Digits()} ::
      old(allocated(s)) && s.Valid() && s.Disjoint(z) ==> s.Digits() == old(s.Digits())
  {
    hide Val, Shl, Span.Digits, IsPow2, BitLength, Pow2;
    IsPow2Value(d);
    Pow2Values();
    BitLengthLe(d, 32);
    var n := y.len;
    var zl, zt, zh := z.Sub(0, n), z.Sub(n, 1), z.Sub(n + 1, z.len - n - 1);
    var c := SmallLshift(zl, y, BitLength(d) - 1);
    Fill(zt, c);
    OneDigitValue(zt);
    assert zt.Digits()[0] == c;
    Fill(zh, 0);
    ValZeros(zh.Digits());
    var zu := z.Sub(0, n + 1);
    SpanSplit(z, n + 1);
    SpanSplit(zu, n);
    assert zu.Sub(0, n) == zl && zu.Sub(n, 1) == zt;
    ShlUnit(n + 1);
    TopValue(zt, c);
  }

  lemma TopValue(z: Span, c: Digit)
    requires z.Valid() && z.len == 1 && z.Digits()[0] == c
    ensures z.Value() == c
  {
    OneDigitValue(z);
  }

  /** `bary_mul_precheck`: either the product is done, or what is left are operands u and v
      of at least two digits, u not longer than v, with their product due at digit k. */
  method Precheck(z: Span, x: Span, y: Span) returns (done: bool, u: Span, v: Span, k: nat)
    requires z.Valid() && x.Valid() && y.Valid() && x.len + y.len <= z.len
    requires z.Disjoint(x) && z.Disjoint(y)
    modifies z.buf
    ensures done ==> z.Value() == old(x.Value()) * old(y.Value())
    ensures !done ==>
              && u.Valid() && v.Valid() && 2 <= u.len <= v.len && k + u.len + v.len <= z.len
              && u.len + v.len <= x.len + y.len
              && ((Within(u, x) && Within(v, y)) || (Within(u, y) && Within(v, x)))
              && z.Sub(0, k).Value() == 0
              && old(x.Value()) * old(y.Value()) == Shl(u.Value() * v.Value(), k)
    ensures forall s: Span {:trigger s.Digits()} ::
      old(allocated(s)) && s.Valid() && s.Disjoint(z) ==> s.Digits() == old(s.Digits())
  {
    hide Val, Shl, Span.Digits;
    ghost var p: int := x.Value() * y.Value();
    var kx, ky;
    u, kx := Strip(x);
    v, ky := Strip(y);
    k := kx + ky;
    StripProduct(u.Value(), v.Value(), kx, ky);
    var zl, zh := z.Sub(0, k), z.Sub(k, z.len - k);
    Fill(zl, 0);
    ValZeros(zl.Digits());
    if u.len > v.len {
      u, v := v, u;
    }
    assert p == Shl(u.Value() * v.Value(), k);
    done := u.len <= 1;
    if done {
      MulByDigit(zh, u, v);
      SpanSplit(z, k);
    }
  }

  lemma StripProduct(u: int, v: int, kx: nat, ky: nat)
    ensures Shl(u, kx) * Shl(v, ky) == Shl(u * v, kx + ky) == Shl(v * u, kx + ky)
  {
    ShlScale(Shl(u, kx), v, ky);
    ShlScale(v, u, kx);
    ShlShl(v * u, kx, ky);
    assert Shl(u, kx) * v == v * Shl(u, kx) && u * v == v * u;
  }
}

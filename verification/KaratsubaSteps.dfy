/** The steps of a Karatsuba multiplication, on the halves of the operands. */
module KaratsubaSteps {
  import opened Digits
  import opened AddSub

  /** `bary_sub` followed by `bary_2comp` when it borrows: |x - y| and its sign. */
  method SubAbs(z: Span, x: Span, y: Span) returns (negative: bool)
    requires z.Valid() && x.Valid() && y.Valid()
    requires x.len <= z.len && y.len <= z.len && z.BehindOf(x) && z.BehindOf(y)
    modifies z.buf
    ensures negative <==> old(x.Value() < y.Value())
    ensures z.Value() == if negative then old(y.Value() - x.Value()) else old(x.Value() - y.Value())
    ensures forall s: Span {:trigger s.Digits()} ::
      old(allocated(s)) && s.Valid() && s.Disjoint(z) ==> s.Digits() == old(s.Digits())
  {
    hide Val, Shl, Span.Digits;
    SpanBound(x);
    SpanBound(y);
    PowMonotone(x.len, z.len);
    PowMonotone(y.len, z.len);
    ShlUnit(z.len);
    var c := Sub(z, x, y);
    SpanBound(z);
    negative := c == 1;
    if negative {
      var zero := TwoComp(z);
    }
  }

  method Copy(z: Span, x: Span)
    requires z.Valid() && x.Valid() && z.len == x.len && z.BehindOf(x)
    modifies z.buf
    ensures z.Digits() == old(x.Digits())
    ensures forall s: Span {:trigger s.Digits()} ::
      old(allocated(s)) && s.Valid() && s.Disjoint(z) ==> s.Digits() == old(s.Digits())
  {
    ghost var xs := x.Digits();
    CopyRest(z, x);
    assert z.Digits() == xs;
  }

  /** The layout of a Karatsuba step: half length n, product buffer, work area. */
  ghost predicate Layout(z: Span, w: Span, n: nat)
  {
    z.Valid() && w.Valid() && z.Disjoint(w) && 0 < n && 3 * n < z.len && n <= w.len
  }

  /** With x0*y0 in the low half of z and the middle term m, modulo b^2n, in the first n
      digits of w and the third quarter of z: x0*y0 is added to m, and the low half of
      that to the second quarter; the high half is kept in w. */
  method AddLowProduct(z: Span, w: Span, n: nat) returns (carry1: nat, carry2: nat)
    requires Layout(z, w, n)
    modifies z.buf, w.buf
    ensures carry1 <= 1 && carry2 <= 1
    ensures z.Sub(0, 2 * n).Value() + Shl(carry2, 2 * n) + Shl(w.Sub(0, n).Value() + Shl(carry1, n), 2 * n)
            == old(z.Sub(0, 2 * n).Value() + Shl(w.Sub(0, n).Value() + Shl(z.Sub(2 * n, n).Value(), n)
                                                 + z.Sub(0, 2 * n).Value(), n))
    ensures forall s: Span {:trigger s.Digits()} ::
      old(allocated(s)) && s.Valid() && s.Disjoint(z.Sub(0, 3 * n)) && s.Disjoint(w.Sub(0, n)) ==>
        s.Digits() == old(s.Digits())
  {
    hide Val, Shl, Span.Digits;
    var z0, z1, z2, w0 := z.Sub(0, n), z.Sub(n, n), z.Sub(2 * n, n), w.Sub(0, n);
    var zl := z.Sub(0, 2 * n);
    SpanSplit(zl, n);
    assert zl.Sub(0, n) == z0 && zl.Sub(n, n) == z1;
    ghost var v, a0, a1, m0, m1 := zl.Value(), z0.Value(), z1.Value(), w0.Value(), z2.Value();
    ghost var c: nat;
    carry1, c := AddHalves(w0, z2, z0, z1);
    ghost var e0, e1 := w0.Value(), z2.Value();
    carry2 := Add(z1, z1, w0);
    SpanSplit(zl, n);
    Copy(w0, z2);
    LowProductAlgebra(v, zl.Value(), a0, a1, m0, m1, e0, e1, z1.Value(), c, carry1, carry2, n);
  }

  /** Two halves of a number added to two others, with the carry between them. */
  method AddHalves(w0: Span, z2: Span, z0: Span, z1: Span) returns (carry: nat, ghost c: nat)
    requires w0.Valid() && z2.Valid() && z0.Valid() && z1.Valid() && w0.len == z2.len == z0.len == z1.len
    requires w0.Disjoint(z2) && w0.Disjoint(z0) && w0.Disjoint(z1) && z2.Disjoint(z0) && z2.Disjoint(z1)
    modifies w0.buf, z2.buf
    ensures carry <= 1 && w0.Value() + Shl(c, w0.len) == old(w0.Value() + z0.Value())
    ensures z2.Value() + Shl(carry, z2.len) == old(z2.Value() + z1.Value()) + c
    ensures forall s: Span {:trigger s.Digits()} ::
      old(allocated(s)) && s.Valid() && s.Disjoint(w0) && s.Disjoint(z2) ==> s.Digits() == old(s.Digits())
  {
    hide Val, Shl, Span.Digits;
    var b := Add(w0, w0, z0);
    carry := Addc(z2, z2, z1, b);
    c := b;
  }

  lemma LowProductAlgebra(v: int, v': int, a0: int, a1: int, m0: int, m1: int, e0: int, e1: int, f1: int,
                          c: int, c1: int, c2: int, n: nat)
    requires v == a0 + Shl(a1, n) && v' == a0 + Shl(f1, n)
    requires e0 + Shl(c, n) == m0 + a0 && e1 + Shl(c1, n) == m1 + a1 + c && f1 + Shl(c2, n) == a1 + e0
    ensures v' + Shl(c2, 2 * n) + Shl(e1 + Shl(c1, n), 2 * n) == v + Shl(m0 + Shl(m1, n) + v, n)
  {
    hide Shl;
    ShlJoin(e0, c, n, n);
    ShlAdd(m0, a0, n);
    ShlJoin(e1, c1, n, 2 * n);
    ShlAdd(m1, a1, 2 * n);
    ShlAdd(m1 + a1, c, 2 * n);
    ShlJoin(f1, c2, n, n);
    ShlAdd(a1, e0, n);
    ShlAdd(m0 + a0, Shl(m1, n) + Shl(a1, n), n);
    ShlAdd(Shl(m1, n), Shl(a1, n), n);
    ShlShl(m1, n, n);
    ShlShl(a1, n, n);
  }

  /** With x1*y1 in the upper half of z: it is added once more, one quarter lower. */
  method AddHighProduct(z: Span, n: nat) returns (carry3: nat)
    requires z.Valid() && 0 < n && 3 * n < z.len && z.Sub(2 * n, z.len - 2 * n).Value() < Pow(2 * n)
    modifies z.buf
    ensures carry3 <= 1
    ensures z.Value() + Shl(carry3, 3 * n) == old(z.Value() + Shl(z.Sub(2 * n, z.len - 2 * n).Value(), n))
    ensures forall s: Span {:trigger s.Digits()} ::
      old(allocated(s)) && s.Valid() && s.Disjoint(z) ==> s.Digits() == old(s.Digits())
  {
    hide Val, Shl, Span.Digits;
    var z0, z1, z2, z3 := z.Sub(0, n), z.Sub(n, n), z.Sub(2 * n, n), z.Sub(3 * n, z.len - 3 * n);
    var k := if 4 * n < z.len then n else z.len - 3 * n;
    var zl, zh, z3l := z.Sub(0, 2 * n), z.Sub(2 * n, z.len - 2 * n), z3.Sub(0, k);
    assert zl.Sub(0, n) == z0 && zl.Sub(n, n) == z1 && zh.Sub(0, n) == z2 && zh.Sub(n, zh.len - n) == z3;
    SpanSplit(z, 2 * n);
    SpanSplit(zl, n);
    SpanSplit(zh, n);
    ThirdQuarter(zh, n, k);
    ghost var d0, d1, c0, c1 := z0.Value(), z1.Value(), z2.Value(), z3.Value();
    var c := Add(z1, z1, z2);
    carry3 := Addc(z2, z2, z3l, c);
    SpanSplit(z, 2 * n);
    SpanSplit(zl, n);
    SpanSplit(zh, n);
    HighProductAlgebra(d0, d1, c0, c1, z1.Value(), z2.Value(), c, carry3, n);
  }

  /** A value below b^2n has nothing above its first 2n digits. */
  lemma ThirdQuarter(z: Span, n: nat, k: nat)
    requires z.Valid() && n + k <= z.len && k == (if 2 * n < z.len then n else z.len - n) && z.Value() < Pow(2 * n)
    ensures z.Sub(n, z.len - n).Sub(0, k).Value() == z.Sub(n, z.len - n).Value()
  {
    hide Val, Shl;
    if k == n {
      var h := z.Sub(2 * n, z.len - 2 * n);
      SpanSplit(z, 2 * n);
      ShlIsProduct(h.Value(), 2 * n);
      if h.Value() >= 1 { MulMonotone(1, h.Value(), Pow(2 * n)); }
      var t := z.Sub(n, z.len - n);
      SpanSplit(t, n);
      assert t.Sub(n, t.len - n) == h;
      ShlUnit(n);
    }
  }

  lemma HighProductAlgebra(d0: int, d1: int, c0: int, c1: int, f1: int, f2: int, c: int, c3: int, n: nat)
    requires f1 + Shl(c, n) == d1 + c0 && f2 + Shl(c3, n) == c0 + c1 + c
    ensures d0 + Shl(f1, n) + Shl(f2 + Shl(c1, n), 2 * n) + Shl(c3, 3 * n)
            == d0 + Shl(d1, n) + Shl(c0 + Shl(c1, n), 2 * n) + Shl(c0 + Shl(c1, n), n)
  {
    hide Shl;
    ShlJoin(f1, c, n, n);
    ShlAdd(d1, c0, n);
    ShlJoin(f2, c3, n, 2 * n);
    ShlAdd(c0, c1, 2 * n);
    ShlAdd(c0 + c1, c, 2 * n);
    ShlJoin(f2, c1, n, 2 * n);
    ShlJoin(c0, c1, n, 2 * n);
    ShlJoin(c0, c1, n, n);
  }

  /** The part of the middle term kept in w, the carry into it, and the correction
      carry1 + carry3 - borrow at the last quarter; k counts what leaves z. */
  method FinishCarries(z: Span, w: Span, n: nat, carry2: nat, cc: int) returns (ghost k: int)
    requires z.Valid() && w.Valid() && z.Disjoint(w) && w.len == n && n < z.len && carry2 <= 1 && -1 <= cc <= 2
    modifies z.buf
    ensures z.Value() + Shl(k, z.len) == old(z.Value() + w.Value()) + carry2 + Shl(cc, n)
    ensures forall s: Span {:trigger s.Digits()} ::
      old(allocated(s)) && s.Valid() && s.Disjoint(z) ==> s.Digits() == old(s.Digits())
  {
    hide Val, Shl, Span.Digits;
    var m := z.len - n;
    var zl, zh := z.Sub(0, n), z.Sub(n, m);
    ghost var c := AddWithOne(z, w, carry2);
    SpanSplit(z, n);
    ghost var l, h := zl.Value(), zh.Value();
    ghost var e := AddSmall(zh, cc);
    SpanSplit(z, n);
    JoinCarry(l, zh.Value(), l + Shl(cc, n), h, cc, e, n, m);
    k := c + e;
    ShlAdd(c, e, z.len);
  }

  method AddWithOne(z: Span, w: Span, carry: nat) returns (ghost c: nat)
    requires z.Valid() && w.Valid() && z.Disjoint(w) && w.len < z.len && carry <= 1
    modifies z.buf
    ensures z.Value() + Shl(c, z.len) == old(z.Value() + w.Value()) + carry
    ensures forall s: Span {:trigger s.Digits()} ::
      old(allocated(s)) && s.Valid() && s.Disjoint(z) ==> s.Digits() == old(s.Digits())
  {
    hide Val, Shl, Span.Digits;
    var c1 := Add(z, z, w);
    var c2 := 0;
    if carry != 0 {
      c2 := AddOne(z);
    }
    ShlAdd(c1, c2, z.len);
    ShlUnit(z.len);
    c := c1 + c2;
  }

  /** Between -1 and 2 is added. */
  method AddSmall(z: Span, cc: int) returns (ghost e: int)
    requires z.Valid() && 0 < z.len && -1 <= cc <= 2
    modifies z.buf
    ensures z.Value() + Shl(e, z.len) == old(z.Value()) + cc
    ensures forall s: Span {:trigger s.Digits()} ::
      old(allocated(s)) && s.Valid() && s.Disjoint(z) ==> s.Digits() == old(s.Digits())
  {
    hide Val, Shl, Span.Digits;
    e := 0;
    ShlUnit(z.len);
    if cc < 0 {
      var b := SubOne(z);
      ShlNeg(b, z.len);
      e := -(b as int);
    } else if cc > 0 {
      var one := new Digit[1];
      one[0] := cc;
      var d := Span(one, 0, 1);
      OneDigitValue(d);
      var b := Add(z, z, d);
      e := b;
    }
  }

  lemma OneDigitValue(z: Span)
    requires z.Valid() && z.len == 1
    ensures z.Value() == z.buf[z.off]
  {
    assert z.Digits() == [z.buf[z.off]];
    ValSingle(z.buf[z.off]);
  }
}

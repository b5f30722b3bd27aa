/** The steps of Toom-3 multiplication between its five smaller products. */
module Toom3Steps {
  import opened Bits
  import opened Digits
  import opened AddSub
  import opened Shift
  import opened MulKernel
  import opened KaratsubaSteps
  import opened Division

  /** A magnitude with a sign flag; the flag is true for non-negative numbers. */
  function Signed(p: bool, v: int): int { if p then v else -v }

  /** x - y for signed x and y: magnitudes of equal sign are subtracted, others added. */
  method SignedSub(z: Span, x: Span, xp: bool, y: Span, yp: bool) returns (zp: bool)
    requires z.Valid() && x.Valid() && y.Valid()
    requires x.len <= z.len && y.len <= z.len && z.BehindOf(x) && z.BehindOf(y)
    requires x.Value() + y.Value() < Pow(z.len)
    modifies z.buf
    ensures Signed(zp, z.Value()) == old(Signed(xp, x.Value()) - Signed(yp, y.Value()))
    ensures forall s: Span {:trigger s.Digits()} ::
      old(allocated(s)) && s.Valid() && s.Disjoint(z) ==> s.Digits() == old(s.Digits())
  {
    hide Val, Shl, Span.Digits;
    if xp == yp {
      var negative := SubAbs(z, x, y);
      zp := if negative then !xp else xp;
    } else {
      AddExact(z, x, y);
      zp := xp;
    }
  }

  /** `bary_add` where the sum is known to fit. */
  method AddExact(z: Span, x: Span, y: Span)
    requires z.Valid() && x.Valid() && y.Valid()
    requires x.len <= z.len && y.len <= z.len && z.BehindOf(x) && z.BehindOf(y)
    requires x.Value() + y.Value() < Pow(z.len)
    modifies z.buf
    ensures z.Value() == old(x.Value() + y.Value())
    ensures forall s: Span {:trigger s.Digits()} ::
      old(allocated(s)) && s.Valid() && s.Disjoint(z) ==> s.Digits() == old(s.Digits())
  {
    hide Val, Shl, Span.Digits;
    ghost var v := x.Value() + y.Value();
    var c := Add(z, x, y);
    SpanBound(z);
    NoCarryLeft(z.Value(), v, c, z.len);
  }

  /** The three parts of an operand, each below b^n. */
  ghost predicate Parts(x0: Span, x1: Span, x2: Span, n: nat)
  {
    x0.Valid() && x1.Valid() && x2.Valid() && x0.len == n && x1.len == n && 0 < x2.len <= n
  }

  ghost predicate Target(u: Span, x0: Span, x1: Span, x2: Span, n: nat)
  {
    u.Valid() && u.len == n + 1 && u.Disjoint(x0) && u.Disjoint(x1) && u.Disjoint(x2)
  }

  /** The operand evaluated at 1, -1 and -2. */
  method Evaluate(u1: Span, u2: Span, u3: Span, x0: Span, x1: Span, x2: Span, n: nat) returns (u2p: bool, u3p: bool)
    requires Parts(x0, x1, x2, n) && Target(u1, x0, x1, x2, n) && Target(u2, x0, x1, x2, n) && Target(u3, x0, x1, x2, n)
    requires u1.Disjoint(u2) && u1.Disjoint(u3) && u2.Disjoint(u3)
    modifies u1.buf, u2.buf, u3.buf
    ensures u1.Value() == old(x0.Value() + x1.Value() + x2.Value())
    ensures Signed(u2p, u2.Value()) == old(x0.Value() - x1.Value() + x2.Value())
    ensures Signed(u3p, u3.Value()) == old(x0.Value() - 2 * x1.Value() + 4 * x2.Value())
    ensures forall s: Span {:trigger s.Digits()} ::
      old(allocated(s)) && s.Valid() && s.Disjoint(u1) && s.Disjoint(u2) && s.Disjoint(u3) ==>
        s.Digits() == old(s.Digits())
  {
    hide Val, Shl, Span.Digits, Signed;
    PartBounds(x0, x1, x2, n);
    ghost var a0: int, a1: int, a2: int := x0.Value(), x1.Value(), x2.Value();
    AddExact(u1, x0, x2);
    var negative := SubAbs(u2, u1, x1);
    u2p := !negative;
    AddExact(u1, u1, x1);
    ghost var s2 := a0 - a1 + a2;
    assert Signed(u2p, u2.Value()) == s2 by { SignedIs(u2p, u2.Value(), s2); }
    u3p := EvaluateTwo(u3, u2, u2p, x0, x2, n, a0, a1, a2);
  }

  lemma SignedIs(p: bool, v: int, s: int)
    requires v == if p then s else -s
    ensures Signed(p, v) == s
  {}

  lemma PartBounds(x0: Span, x1: Span, x2: Span, n: nat)
    requires Parts(x0, x1, x2, n)
    ensures x0.Value() < Pow(n) && x1.Value() < Pow(n) && x2.Value() < Pow(n)
    ensures Pow(n + 1) == 0x1_0000_0000 * Pow(n)
  {
    SpanBound(x0);
    SpanBound(x1);
    SpanBound(x2);
    PowMonotone(x2.len, n);
  }

  /** At -2: 2*(u2 + x2) - x0. */
  method EvaluateTwo(u3: Span, u2: Span, u2p: bool, x0: Span, x2: Span, n: nat, ghost a0: int, ghost a1: int,
                     ghost a2: int) returns (u3p: bool)
    requires u2.Valid() && u3.Valid() && x0.Valid() && x2.Valid() && u2.len == u3.len == n + 1 && x0.len == n
             && x2.len <= n
    requires u3.Disjoint(u2) && u3.Disjoint(x0) && u3.Disjoint(x2)
    requires 0 <= a0 < Pow(n) && 0 <= a1 < Pow(n) && 0 <= a2 < Pow(n) && Pow(n + 1) == 0x1_0000_0000 * Pow(n)
    requires x0.Value() == a0 && x2.Value() == a2 && Signed(u2p, u2.Value()) == a0 - a1 + a2
    modifies u3.buf
    ensures Signed(u3p, u3.Value()) == a0 - 2 * a1 + 4 * a2
    ensures forall s: Span {:trigger s.Digits()} ::
      old(allocated(s)) && s.Valid() && s.Disjoint(u3) ==> s.Digits() == old(s.Digits())
  {
    hide Val, Shl, Span.Digits;
    u3p := true;
    if u2p {
      AddExact(u3, u2, x2);
    } else {
      var negative := SubAbs(u3, x2, u2);
      u3p := !negative;
    }
    ghost var v := u3.Value();
    assert Signed(u3p, v) == a0 - a1 + 2 * a2;
    assert Pow2(1) == 2;
    var c := SmallLshift(u3, u3, 1);
    SpanBound(u3);
    NoCarryLeft(u3.Value(), 2 * v, c, n + 1);
    if !u3p {
      AddExact(u3, u3, x0);
    } else {
      var negative := SubAbs(u3, u3, x0);
      u3p := !negative;
    }
  }

  //----------------------------------------------------------------------------
  // Interpolation

  /** `bary_mulsub_1xN` with complement: |z - 2*y| and the sign. */
  method MulSubAbs(z: Span, y: Span) returns (negative: bool)
    requires z.Valid() && y.Valid() && z.len == y.len + 1 && z.Disjoint(y)
    modifies z.buf
    ensures negative <==> old(z.Value() < 2 * y.Value())
    ensures z.Value() == if negative then old(2 * y.Value() - z.Value()) else old(z.Value() - 2 * y.Value())
    ensures forall s: Span {:trigger s.Digits()} ::
      old(allocated(s)) && s.Valid() && s.Disjoint(z) ==> s.Digits() == old(s.Digits())
  {
    hide Val, Shl, Span.Digits;
    var n := y.len;
    var zl, zt := z.Sub(0, n), z.Sub(n, 1);
    ghost var v: int := z.Value() - 2 * y.Value();
    SpanBound(y);
    SpanBound(z);
    assert Pow(n + 1) == 0x1_0000_0000 * Pow(n);
    var num := MulSub(z, 2, y);
    Fill(zt, Lo(num));
    OneDigitValue(zt);
    FilledDigit(zt, Lo(num));
    SpanSplit(z, n);
    ShlSplit(num, n);
    SpanBound(z);
    TopDigit(z.Value(), Dn(num), v, n + 1);
    ShlUnit(n + 1);
    ShlNeg(1, n + 1);
    negative := Dn(num) != 0;
    if negative {
      var zero := TwoComp(z);
    }
  }

  lemma FilledDigit(z: Span, d: Digit)
    requires z.Valid() && z.len == 1 && z.Digits()[0] == d
    ensures z.Value() == d
  {
    OneDigitValue(z);
  }

  /** Exact division of a signed number by 3. */
  method DivExact(z: Span, p: bool, ghost v: int)
    requires z.Valid() && 0 < z.len && Signed(p, z.Value()) == 3 * v
    modifies z.buf
    ensures Signed(p, z.Value()) == v
    ensures forall s: Span {:trigger s.Digits()} ::
      old(allocated(s)) && s.Valid() && s.Disjoint(z) ==> s.Digits() == old(s.Digits())
  {
    hide Val, Shl, Span.Digits;
    var r := DivSingle(z, z, 0, 3);
    ShlUnit(z.len);
  }

  /** Exact division of a signed number by 2, as a shift. */
  method Halve(z: Span, p: bool, ghost v: int)
    requires z.Valid() && 0 < z.len && Signed(p, z.Value()) == 2 * v
    modifies z.buf
    ensures Signed(p, z.Value()) == v
    ensures forall s: Span {:trigger s.Digits()} ::
      old(allocated(s)) && s.Valid() && s.Disjoint(z) ==> s.Digits() == old(s.Digits())
  {
    hide Val, Shl, Span.Digits;
    assert Pow2(1) == 2;
    SmallRshift(z, z, 1, 0);
    ShlUnit(z.len);
  }

  /** (x - y) / 3 and (x - y) / 2 for signed x and y. */
  method DiffThird(z: Span, x: Span, xp: bool, y: Span, yp: bool, ghost v: int) returns (zp: bool)
    requires z.Valid() && x.Valid() && y.Valid() && 0 < z.len
    requires x.len <= z.len && y.len <= z.len && z.BehindOf(x) && z.BehindOf(y)
    requires x.Value() + y.Value() < Pow(z.len) && Signed(xp, x.Value()) - Signed(yp, y.Value()) == 3 * v
    modifies z.buf
    ensures Signed(zp, z.Value()) == v
    ensures forall s: Span {:trigger s.Digits()} ::
      old(allocated(s)) && s.Valid() && s.Disjoint(z) ==> s.Digits() == old(s.Digits())
  {
    hide Val, Shl, Span.Digits, Signed, Pow;
    zp := SignedSub(z, x, xp, y, yp);
    DivExact(z, zp, v);
  }

  method DiffHalf(z: Span, x: Span, xp: bool, y: Span, yp: bool, ghost v: int) returns (zp: bool)
    requires z.Valid() && x.Valid() && y.Valid() && 0 < z.len
    requires x.len <= z.len && y.len <= z.len && z.BehindOf(x) && z.BehindOf(y)
    requires x.Value() + y.Value() < Pow(z.len) && Signed(xp, x.Value()) - Signed(yp, y.Value()) == 2 * v
    modifies z.buf
    ensures Signed(zp, z.Value()) == v
    ensures forall s: Span {:trigger s.Digits()} ::
      old(allocated(s)) && s.Valid() && s.Disjoint(z) ==> s.Digits() == old(s.Digits())
  {
    hide Val, Shl, Span.Digits, Signed, Pow;
    zp := SignedSub(z, x, xp, y, yp);
    Halve(z, zp, v);
  }

  /** The magnitude of a signed number with a bound. */
  lemma Magnitude(p: bool, v: int, s: int)
    requires Signed(p, v) == s
    ensures v == s || v == -s
  {}

  /** The coefficients of the product polynomial, for operands with parts below p. */
  datatype Coeffs = Coeffs(c0: int, c1: int, c2: int, c3: int, c4: int) {
    ghost predicate Bounded(q: int) {
      0 <= c0 < q && 0 <= c1 < 2 * q && 0 <= c2 < 3 * q && 0 <= c3 < 2 * q && 0 <= c4 < q
    }
    /** The values at 1, -1 and -2. */
    ghost function At1(): int { c0 + c1 + c2 + c3 + c4 }
    ghost function AtMinus1(): int { c0 - c1 + c2 - c3 + c4 }
    ghost function AtMinus2(): int { c0 - 2 * c1 + 4 * c2 - 8 * c3 + 16 * c4 }
  }

  /** A work span of the interpolation, apart from all the values it reads. */
  ghost predicate Work(z: Span, m: nat, t0: Span, t1: Span, t2: Span, t3: Span, t4: Span)
  {
    && z.Valid() && z.len == m + 1 && z.Disjoint(t0) && z.Disjoint(t1) && z.Disjoint(t2)
    && z.Disjoint(t3) && z.Disjoint(t4)
  }

  ghost predicate Point(t: Span, n: nat)
  {
    t.Valid() && t.len == n
  }

  /** First round: z3 <- (z(-2) - z(1)) / 3, z1 <- (z(1) - z(-1)) / 2, z2 <- z(-1) - z(0). */
  method InterpolateFirst(z1: Span, z2: Span, z3: Span, t0: Span, t1: Span, t2: Span, t2p: bool, t3: Span, t3p: bool,
                          m: nat, ghost c: Coeffs)
    returns (z1p: bool, z2p: bool, z3p: bool)
    requires 0 < m && Point(t0, m) && Point(t1, m + 1) && Point(t2, m + 1) && Point(t3, m + 1)
    requires Work(z1, m, t0, t1, t2, t3, z2) && Work(z2, m, t0, t1, t2, t3, z3) && Work(z3, m, t0, t1, t2, t3, z1)
    requires c.Bounded(Pow(m)) && t0.Value() == c.c0 && t1.Value() == c.At1()
    requires Signed(t2p, t2.Value()) == c.AtMinus1() && Signed(t3p, t3.Value()) == c.AtMinus2()
    modifies z1.buf, z2.buf, z3.buf
    ensures Signed(z1p, z1.Value()) == c.c1 + c.c3
    ensures Signed(z2p, z2.Value()) == -c.c1 + c.c2 - c.c3 + c.c4
    ensures Signed(z3p, z3.Value()) == -c.c1 + c.c2 - 3 * c.c3 + 5 * c.c4
    ensures forall s: Span {:trigger s.Digits()} ::
      old(allocated(s)) && s.Valid() && s.Disjoint(z1) && s.Disjoint(z2) && s.Disjoint(z3) ==>
        s.Digits() == old(s.Digits())
  {
    hide Val, Shl, Span.Digits, Signed;
    assert Pow(m + 1) == 0x1_0000_0000 * Pow(m);
    hide Pow;
    Magnitude(t2p, t2.Value(), c.AtMinus1());
    Magnitude(t3p, t3.Value(), c.AtMinus2());
    Unsigned(t0.Value());
    Unsigned(t1.Value());
    assert t1.Value() < 9 * Pow(m) && t2.Value() < 9 * Pow(m) && t3.Value() < 31 * Pow(m);
    z3p := DiffThird(z3, t3, t3p, t1, true, -c.c1 + c.c2 - 3 * c.c3 + 5 * c.c4);
    z1p := DiffHalf(z1, t1, true, t2, t2p, c.c1 + c.c3);
    z2p := SignedSub(z2, t2, t2p, t0, true);
  }

  lemma Unsigned(v: int)
    ensures Signed(true, v) == v
  {}

  /** z3 <- (z2 - z3) / 2 + 2 * z(inf). */
  method InterpolateZ3(z2: Span, z3: Span, t4: Span, z2q: bool, z3q: bool, m: nat, ghost c: Coeffs) returns (z3p: bool)
    requires 0 < m && Point(t4, m) && Point(z2, m + 1) && Point(z3, m + 1)
    requires z2.Disjoint(z3) && z3.Disjoint(t4) && c.Bounded(Pow(m)) && t4.Value() == c.c4
    requires Signed(z2q, z2.Value()) == -c.c1 + c.c2 - c.c3 + c.c4
    requires Signed(z3q, z3.Value()) == -c.c1 + c.c2 - 3 * c.c3 + 5 * c.c4
    modifies z3.buf
    ensures Signed(z3p, z3.Value()) == c.c3
    ensures forall s: Span {:trigger s.Digits()} ::
      old(allocated(s)) && s.Valid() && s.Disjoint(z3) ==> s.Digits() == old(s.Digits())
  {
    hide Val, Shl, Span.Digits, Signed;
    assert Pow(m + 1) == 0x1_0000_0000 * Pow(m);
    hide Pow;
    Magnitude(z2q, z2.Value(), -c.c1 + c.c2 - c.c3 + c.c4);
    Magnitude(z3q, z3.Value(), -c.c1 + c.c2 - 3 * c.c3 + 5 * c.c4);
    z3p := DiffHalf(z3, z2, z2q, z3, z3q, c.c3 - 2 * c.c4);
    z3p := AddTwice(z3, z3p, t4, c.c3 - 2 * c.c4, c.c4, m);
  }

  method AddTwice(z: Span, p: bool, t: Span, ghost v: int, ghost w: int, m: nat) returns (zp: bool)
    requires Point(t, m) && Point(z, m + 1) && z.Disjoint(t) && t.Value() == w && Signed(p, z.Value()) == v
    requires v + 2 * w < Pow(m + 1)
    modifies z.buf
    ensures Signed(zp, z.Value()) == v + 2 * w
    ensures forall s: Span {:trigger s.Digits()} ::
      old(allocated(s)) && s.Valid() && s.Disjoint(z) ==> s.Digits() == old(s.Digits())
  {
    hide Val, Shl, Span.Digits;
    if p {
      var k := MulAdd(z, 2, t);
      SpanBound(z);
      NoCarryLeft(z.Value(), v + 2 * w, k, m + 1);
      zp := p;
    } else {
      var negative := MulSubAbs(z, t);
      zp := negative;
    }
  }

  /** Second round: the coefficients themselves. */
  method InterpolateSecond(z1: Span, z2: Span, z3: Span, t4: Span, z1q: bool, z2q: bool, z3q: bool, m: nat,
                           ghost c: Coeffs)
    returns (z1p: bool, z2p: bool, z3p: bool)
    requires 0 < m && Point(t4, m) && Point(z1, m + 1) && Point(z2, m + 1) && Point(z3, m + 1)
    requires z1.Disjoint(z2) && z1.Disjoint(z3) && z2.Disjoint(z3) && z1.Disjoint(t4) && z2.Disjoint(t4)
             && z3.Disjoint(t4)
    requires c.Bounded(Pow(m)) && t4.Value() == c.c4
    requires Signed(z1q, z1.Value()) == c.c1 + c.c3
    requires Signed(z2q, z2.Value()) == -c.c1 + c.c2 - c.c3 + c.c4
    requires Signed(z3q, z3.Value()) == -c.c1 + c.c2 - 3 * c.c3 + 5 * c.c4
    modifies z1.buf, z2.buf, z3.buf
    ensures Signed(z1p, z1.Value()) == c.c1
    ensures Signed(z2p, z2.Value()) == c.c2
    ensures Signed(z3p, z3.Value()) == c.c3
    ensures forall s: Span {:trigger s.Digits()} ::
      old(allocated(s)) && s.Valid() && s.Disjoint(z1) && s.Disjoint(z2) && s.Disjoint(z3) ==>
        s.Digits() == old(s.Digits())
  {
    hide Val, Shl, Span.Digits, Signed;
    assert Pow(m + 1) == 0x1_0000_0000 * Pow(m);
    hide Pow;
    z3p := InterpolateZ3(z2, z3, t4, z2q, z3q, m, c);
    Magnitude(z1q, z1.Value(), c.c1 + c.c3);
    Magnitude(z2q, z2.Value(), -c.c1 + c.c2 - c.c3 + c.c4);
    Magnitude(z3p, z3.Value(), c.c3);
    Unsigned(t4.Value());
    Negated(z1q, z1.Value());
    z2p := SignedSub(z2, z2, z2q, z1, !z1q);
    Magnitude(z2p, z2.Value(), c.c2 + c.c4);
    z2p := SignedSub(z2, z2, z2p, t4, true);
    z1p := SignedSub(z1, z1, z1q, z3, z3p);
  }

  lemma Negated(p: bool, v: int)
    ensures Signed(!p, v) == -Signed(p, v)
  {}

  //----------------------------------------------------------------------------
  // Recombination

  /** A signed number added at digit i of z; k counts what leaves z at the top. */
  method AddSignedAt(z: Span, i: nat, y: Span, p: bool) returns (ghost k: int)
    requires z.Valid() && y.Valid() && i + y.len <= z.len && z.Disjoint(y)
    modifies z.buf
    ensures z.Value() + Shl(k, z.len) == old(z.Value()) + Shl(Signed(p, old(y.Value())), i)
    ensures forall s: Span {:trigger s.Digits()} ::
      old(allocated(s)) && s.Valid() && s.Disjoint(z) ==> s.Digits() == old(s.Digits())
  {
    hide Val, Shl, Span.Digits;
    var m := z.len - i;
    var zl, zh := z.Sub(0, i), z.Sub(i, m);
    SpanSplit(z, i);
    ghost var l, h, v: int := zl.Value(), zh.Value(), Signed(p, y.Value());
    if p {
      var c := Add(zh, zh, y);
      k := c;
    } else {
      var c := Sub(zh, zh, y);
      ShlNeg(c, m);
      k := -(c as int);
    }
    SpanSplit(z, i);
    JoinCarry(l, zh.Value(), l + Shl(v, i), h, v, k, i, m);
  }

  /** The outer coefficients side by side. */
  method PlaceOuter(zz: Span, t0: Span, t4: Span, n: nat)
    requires zz.Valid() && t0.Valid() && t4.Valid() && zz.len == 6 * n + 1 && t0.len == 2 * n && t4.len == 2 * n
    requires zz.Disjoint(t0) && zz.Disjoint(t4)
    modifies zz.buf
    ensures zz.Value() == old(t0.Value()) + Shl(old(t4.Value()), 4 * n)
    ensures forall s: Span {:trigger s.Digits()} ::
      old(allocated(s)) && s.Valid() && s.Disjoint(zz) ==> s.Digits() == old(s.Digits())
  {
    hide Val, Shl, Span.Digits;
    var l, h := zz.Sub(0, 4 * n), zz.Sub(4 * n, 2 * n + 1);
    CopyRest(l, t0);
    CopyValue(l.Digits(), t0.Digits());
    CopyRest(h, t4);
    CopyValue(h.Digits(), t4.Digits());
    SpanSplit(zz, 4 * n);
  }

  /** The value of the product polynomial at b^n. */
  ghost function Evaluated(c: Coeffs, n: nat): int
  {
    c.c0 + Shl(c.c1, n) + Shl(c.c2, 2 * n) + Shl(c.c3, 3 * n) + Shl(c.c4, 4 * n)
  }

  method Recombine(zz: Span, t0: Span, t4: Span, z1: Span, z1p: bool, z2: Span, z2p: bool, z3: Span, z3p: bool,
                   n: nat, ghost c: Coeffs)
    requires 0 < n && zz.Valid() && zz.len == 6 * n + 1
    requires Point(t0, 2 * n) && Point(t4, 2 * n) && Point(z1, 2 * n + 1) && Point(z2, 2 * n + 1)
             && Point(z3, 2 * n + 1)
    requires zz.Disjoint(t0) && zz.Disjoint(t4) && zz.Disjoint(z1) && zz.Disjoint(z2) && zz.Disjoint(z3)
    requires t0.Value() == c.c0 && t4.Value() == c.c4 && 0 <= Evaluated(c, n) < Pow(6 * n + 1)
    requires Signed(z1p, z1.Value()) == c.c1 && Signed(z2p, z2.Value()) == c.c2 && Signed(z3p, z3.Value()) == c.c3
    modifies zz.buf
    ensures zz.Value() == Evaluated(c, n)
    ensures forall s: Span {:trigger s.Digits()} ::
      old(allocated(s)) && s.Valid() && s.Disjoint(zz) ==> s.Digits() == old(s.Digits())
  {
    hide Val, Shl, Span.Digits, Signed, Pow;
    PlaceOuter(zz, t0, t4, n);
    ghost var k1 := AddSignedAt(zz, n, z1, z1p);
    ghost var k2 := AddSignedAt(zz, 2 * n, z2, z2p);
    ghost var k3 := AddSignedAt(zz, 3 * n, z3, z3p);
    ShlAdd(k1, k2, zz.len);
    ShlAdd(k1 + k2, k3, zz.len);
    SpanBound(zz);
    NoCarryLeft(zz.Value(), Evaluated(c, n), k1 + k2 + k3, zz.len);
  }

  /** `BARY_TRUNC` and the copy into the result buffer. */
  method CopyOut(z: Span, zz: Span)
    requires z.Valid() && zz.Valid() && z.Disjoint(zz) && zz.Value() < Pow(z.len)
    modifies z.buf
    ensures z.Value() == old(zz.Value())
    ensures forall s: Span {:trigger s.Digits()} ::
      old(allocated(s)) && s.Valid() && s.Disjoint(z) ==> s.Digits() == old(s.Digits())
  {
    hide Val, Shl, Span.Digits, Pow;
    var n := Trunc(zz);
    var t := zz.Sub(0, n);
    TruncFits(zz, n, z.len);
    CopyRest(z, t);
    CopyValue(z.Digits(), t.Digits());
  }

  /** `BARY_TRUNC`: the length without high zero digits. */
  method Trunc(z: Span) returns (n: nat)
    requires z.Valid()
    ensures n <= z.len && (n == 0 || z.Digits()[n - 1] != 0) && forall j :: n <= j < z.len ==> z.Digits()[j] == 0
  {
    n := z.len;
    while 0 < n && z.buf[z.off + n - 1] == 0
      invariant n <= z.len && forall j :: n <= j < z.len ==> z.Digits()[j] == 0
    {
      assert z.Digits()[n - 1] == 0;
      n := n - 1;
    }
    assert n > 0 ==> z.Digits()[n - 1] == z.buf[z.off + n - 1];
  }

  lemma TruncFits(z: Span, n: nat, m: nat)
    requires z.Valid() && n <= z.len && (n == 0 || z.Digits()[n - 1] != 0) && z.Value() < Pow(m)
    requires forall j :: n <= j < z.len ==> z.Digits()[j] == 0
    ensures n <= m && z.Sub(0, n).Value() == z.Value()
  {
    hide Val, Shl;
    SpanSplit(z, n);
    SpanSub(z, n, z.len - n);
    ValZeros(z.Sub(n, z.len - n).Digits());
    ShlUnit(n);
    if n > m {
      var ds := z.Sub(0, n).Digits();
      ValSplit(ds, n - 1);
      assert ds[n - 1..] == [ds[n - 1]];
      ValSingle(ds[n - 1]);
      ShlIsProduct(ds[n - 1], n - 1);
      MulMonotone(1, ds[n - 1], Pow(n - 1));
      PowMonotone(m, n - 1);
    }
  }

  //----------------------------------------------------------------------------
  // The polynomials

  /** The coefficients of (x0 + x1*t + x2*t^2) * (y0 + y1*t + y2*t^2). */
  ghost function Product(x0: int, x1: int, x2: int, y0: int, y1: int, y2: int): Coeffs
  {
    Coeffs(x0 * y0, x0 * y1 + x1 * y0, x0 * y2 + x1 * y1 + x2 * y0, x1 * y2 + x2 * y1, x2 * y2)
  }

  lemma ProductAtPoints(x0: int, x1: int, x2: int, y0: int, y1: int, y2: int)
    ensures var c := Product(x0, x1, x2, y0, y1, y2);
            && c.At1() == (x0 + x1 + x2) * (y0 + y1 + y2)
            && c.AtMinus1() == (x0 - x1 + x2) * (y0 - y1 + y2)
            && c.AtMinus2() == (x0 - 2 * x1 + 4 * x2) * (y0 - 2 * y1 + 4 * y2)
  {
    Expand3(x0, x1, x2, y0, y1, y2);
    Expand3(x0, -x1, x2, y0, -y1, y2);
    assert (-x1) * y0 == -(x1 * y0) && x0 * (-y1) == -(x0 * y1) && (-x1) * (-y1) == x1 * y1
           && (-x1) * y2 == -(x1 * y2) && x2 * (-y1) == -(x2 * y1);
    ExpandAtMinus2(x0, x1, x2, y0, y1, y2);
  }

  lemma Expand3(a: int, b: int, c: int, d: int, e: int, f: int)
    ensures (a + b + c) * (d + e + f) == a * d + (a * e + b * d) + (a * f + b * e + c * d) + (b * f + c * e) + c * f
  {
    assert (a + b + c) * (d + e + f) == a * (d + e + f) + b * (d + e + f) + c * (d + e + f);
  }

  lemma ExpandAtMinus2(x0: int, x1: int, x2: int, y0: int, y1: int, y2: int)
    ensures (x0 - 2 * x1 + 4 * x2) * (y0 - 2 * y1 + 4 * y2)
            == x0 * y0 - 2 * (x0 * y1 + x1 * y0) + 4 * (x0 * y2 + x1 * y1 + x2 * y0) - 8 * (x1 * y2 + x2 * y1)
              + 16 * (x2 * y2)
  {
    Expand3(x0, -2 * x1, 4 * x2, y0, -2 * y1, 4 * y2);
    assert x0 * (-2 * y1) == -2 * (x0 * y1) && (-2 * x1) * y0 == -2 * (x1 * y0);
    assert x0 * (4 * y2) == 4 * (x0 * y2) && (-2 * x1) * (-2 * y1) == 4 * (x1 * y1) && (4 * x2) * y0 == 4 * (x2 * y0);
    assert (-2 * x1) * (4 * y2) == -8 * (x1 * y2) && (4 * x2) * (-2 * y1) == -8 * (x2 * y1)
           && (4 * x2) * (4 * y2) == 16 * (x2 * y2);
  }

  lemma ProductBounded(x0: int, x1: int, x2: int, y0: int, y1: int, y2: int, n: nat)
    requires 0 <= x0 < Pow(n) && 0 <= x1 < Pow(n) && 0 <= x2 < Pow(n)
    requires 0 <= y0 < Pow(n) && 0 <= y1 < Pow(n) && 0 <= y2 < Pow(n)
    ensures Product(x0, x1, x2, y0, y1, y2).Bounded(Pow(2 * n))
  {
    hide Pow;
    ProductBound(x0, y0, n, n); ProductBound(x0, y1, n, n); ProductBound(x0, y2, n, n);
    ProductBound(x1, y0, n, n); ProductBound(x1, y1, n, n); ProductBound(x1, y2, n, n);
    ProductBound(x2, y0, n, n); ProductBound(x2, y1, n, n); ProductBound(x2, y2, n, n);
  }

  lemma ProductEvaluated(x0: int, x1: int, x2: int, y0: int, y1: int, y2: int, n: nat)
    ensures Evaluated(Product(x0, x1, x2, y0, y1, y2), n)
            == (x0 + Shl(x1, n) + Shl(x2, 2 * n)) * (y0 + Shl(y1, n) + Shl(y2, 2 * n))
  {
    hide Shl;
    Expand3(x0, Shl(x1, n), Shl(x2, 2 * n), y0, Shl(y1, n), Shl(y2, 2 * n));
    ShlScale(x0, y1, n); ShlScale(y0, x1, n); ShlAdd(x0 * y1, y0 * x1, n);
    ShlScale(x0, y2, 2 * n); ShlScale(y0, x2, 2 * n);
    ShlMul(x1, y1, n, n); ShlMul(x1, y2, n, 2 * n); ShlMul(x2, y1, 2 * n, n); ShlMul(x2, y2, 2 * n, 2 * n);
    ShlAdd(x0 * y2, x1 * y1, 2 * n); ShlAdd(x0 * y2 + x1 * y1, y0 * x2, 2 * n);
    ShlAdd(x1 * y2, x2 * y1, 3 * n);
    assert x1 * y0 == y0 * x1 && x2 * y0 == y0 * x2;
    assert Shl(x1, n) * y0 == y0 * Shl(x1, n) && Shl(x2, 2 * n) * y0 == y0 * Shl(x2, 2 * n);
  }

  lemma ShlMul(u: int, v: int, j: nat, k: nat)
    ensures Shl(u, j) * Shl(v, k) == Shl(u * v, j + k)
  {
    hide Shl;
    ShlScale(Shl(u, j), v, k);
    ShlScale(v, u, j);
    ShlShl(v * u, j, k);
    assert Shl(u, j) * v == v * Shl(u, j) && u * v == v * u;
  }

  /** A product that fits one digit less: the top digit is zero. */
  lemma DropTop(t: Span, m: nat)
    requires t.Valid() && t.len == m + 1 && t.Value() < Pow(m)
    ensures t.Digits()[m] == 0 && t.Sub(0, m).Value() == t.Value()
  {
    hide Val, Shl;
    SpanSplit(t, m);
    var h := t.Sub(m, 1);
    OneDigitValue(h);
    assert t.Digits()[m] == h.buf[h.off];
    ShlIsProduct(h.Value(), m);
    if h.Value() >= 1 { MulMonotone(1, h.Value(), Pow(m)); }
    ShlUnit(m);
  }
}

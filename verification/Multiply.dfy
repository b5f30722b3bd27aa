/** The multiplication algorithms that call each other, and the dispatcher. */
module Multiply {
  import opened Digits
  import opened AddSub
  import opened MulKernel
  import opened MulPrecheck
  import opened KaratsubaSteps
  import opened Toom3Steps

  const KARATSUBA_MUL_DIGITS: nat := 70
  const TOOM3_MUL_DIGITS: nat := 150

  predicate KaratsubaBalanced(xn: nat, yn: nat) { yn / 2 < xn }
  predicate Toom3Balanced(xn: nat, yn: nat) { (yn + 2) / 3 * 2 < xn }

  /** The function pointer handed to the slicing routine: `bary_mul_karatsuba_start` or
      `bary_mul_toom3_start`. */
  datatype MulFunc = KaratsubaStart | Toom3Start

  /** The operands (which may overlap each other), the product buffer and the work area. */
  ghost predicate Setup(z: Span, x: Span, y: Span, w: Span)
  {
    && z.Valid() && x.Valid() && y.Valid() && w.Valid() && x.len + y.len <= z.len
    && z.Disjoint(x) && z.Disjoint(y) && z.Disjoint(w) && w.Disjoint(x) && w.Disjoint(y)
  }

  /** `bary_sparse_p`: three digits from the middle, at random places. */
  method SparseP(x: Span) returns (sparse: bool)
    requires x.Valid() && 0 < x.len
  {
    var n := x.len;
    var c := 0;
    var r0: nat :| r0 <= n / 2;
    if x.buf[x.off + r0 + n / 4] != 0 { c := c + 1; }
    var r1: nat :| r1 <= n / 2;
    if c <= 1 && x.buf[x.off + r1 + n / 4] != 0 { c := c + 1; }
    var r2: nat :| r2 <= n / 2;
    if c <= 1 && x.buf[x.off + r2 + n / 4] != 0 { c := c + 1; }
    sparse := c <= 1;
  }

  /** `bary_mul_karatsuba_start` and `bary_mul_toom3_start`. */
  method Start(f: MulFunc, z: Span, x: Span, y: Span, w: Span)
    requires Setup(z, x, y, w)
    modifies z.buf, w.buf
    ensures z.Value() == old(x.Value()) * old(y.Value())
    ensures forall s: Span {:trigger s.Digits()} ::
      old(allocated(s)) && s.Valid() && s.Disjoint(z) && s.Disjoint(w) ==> s.Digits() == old(s.Digits())
    decreases x.len + y.len, 7
  {
    hide Val, Shl, Span.Digits;
    var done, u, v, k := Precheck(z, x, y);
    if done {
      return;
    }
    var zl, zh := z.Sub(0, k), z.Sub(k, z.len - k);
    match f {
      case KaratsubaStart => KaratsubaBranch(zh, u, v, w);
      case Toom3Start => Toom3Branch(zh, u, v, w);
    }
    SpanSplit(z, k);
  }

  /** `bary_mul_karatsuba_branch`. */
  method KaratsubaBranch(z: Span, x: Span, y: Span, w: Span)
    requires Setup(z, x, y, w) && 2 <= x.len <= y.len
    modifies z.buf, w.buf
    ensures z.Value() == old(x.Value()) * old(y.Value())
    ensures forall s: Span {:trigger s.Digits()} ::
      old(allocated(s)) && s.Valid() && s.Disjoint(z) && s.Disjoint(w) ==> s.Digits() == old(s.Digits())
    decreases x.len + y.len, 5
  {
    hide Val, Shl, Span.Digits;
    var normal := x.len < KARATSUBA_MUL_DIGITS;
    if !normal {
      normal := SparseP(x);
    }
    if normal {
      if x == y {
        SqFast(z, x);
      } else {
        ShortMul(z, x, y);
      }
      return;
    }
    var sparse := SparseP(y);
    if sparse {
      ShortMul(z, y, x);
      return;
    }
    if !KaratsubaBalanced(x.len, y.len) {
      Balance(KaratsubaStart, z, x, y, w);
      return;
    }
    Karatsuba(z, x, y, w);
  }

  /** `bary_mul_toom3_branch`. */
  method Toom3Branch(z: Span, x: Span, y: Span, w: Span)
    requires Setup(z, x, y, w) && 2 <= x.len <= y.len
    modifies z.buf, w.buf
    ensures z.Value() == old(x.Value()) * old(y.Value())
    ensures forall s: Span {:trigger s.Digits()} ::
      old(allocated(s)) && s.Valid() && s.Disjoint(z) && s.Disjoint(w) ==> s.Digits() == old(s.Digits())
    decreases x.len + y.len, 6
  {
    if x.len < TOOM3_MUL_DIGITS {
      KaratsubaBranch(z, x, y, w);
      return;
    }
    if !Toom3Balanced(x.len, y.len) {
      Balance(Toom3Start, z, x, y, w);
      return;
    }
    Toom3(z, x, y, w);
  }

  //----------------------------------------------------------------------------
  // bary_mul_balance_with_mulfunc

  /** Slicing the longer operand; entered when x is so much shorter than y that one of the
      other algorithms does not apply. */
  method Balance(f: MulFunc, z: Span, x: Span, y: Span, w: Span)
    requires Setup(z, x, y, w) && 0 < x.len <= y.len
    modifies z.buf, w.buf
    ensures z.Value() == old(x.Value()) * old(y.Value())
    ensures forall s: Span {:trigger s.Digits()} ::
      old(allocated(s)) && s.Valid() && s.Disjoint(z) && s.Disjoint(w) ==> s.Digits() == old(s.Digits())
    decreases x.len + y.len, if x.len < y.len then 4 else 10
  {
    hide Val, Shl, Span.Digits;
    var xn := x.len;
    ghost var ys, x0 := y.Digits(), x.Value();
    ZeroPrefix(ys);
    Fill(z.Sub(0, xn), 0);
    ValZeros(z.Sub(0, xn).Digits());
    var n := 0;
    while n < y.len
      invariant n <= y.len
      invariant z.Sub(0, n + xn).Value() == x0 * Val(ys[..n])
      invariant forall s: Span {:trigger s.Digits()} ::
        old(allocated(s)) && s.Valid() && s.Disjoint(z) && s.Disjoint(w) ==> s.Digits() == old(s.Digits())
    {
      assert y.Digits() == ys && x.Digits() == old(x.Digits());
      var r := if xn > y.len - n then y.len - n else xn;
      BalanceSlice(f, z, x, y, w, n, r);
      n := n + r;
    }
    assert ys[..n] == ys;
    var m := xn + y.len;
    Fill(z.Sub(m, z.len - m), 0);
    ValZeros(z.Sub(m, z.len - m).Digits());
    SpanSplit(z, m);
    ShlUnit(m);
  }

  lemma ZeroPrefix(ys: seq<Digit>)
    ensures Val(ys[..0]) == 0
  {}

  /** One slice of r digits of y at place n: its product is added to what is there. */
  method BalanceSlice(f: MulFunc, z: Span, x: Span, y: Span, w: Span, n: nat, r: nat)
    requires Setup(z, x, y, w) && 0 < x.len <= y.len && 0 < r <= x.len && n + r <= y.len
    requires z.Sub(0, n + x.len).Value() == x.Value() * Val(y.Digits()[..n])
    modifies z.buf, w.buf
    ensures z.Sub(0, n + r + x.len).Value() == old(x.Value() * Val(y.Digits()[..n + r]))
    ensures forall s: Span {:trigger s.Digits()} ::
      old(allocated(s)) && s.Valid() && s.Disjoint(z) && s.Disjoint(w) ==> s.Digits() == old(s.Digits())
    decreases x.len + y.len, if x.len < y.len then 1 else 9
  {
    hide Val, Shl, Span.Digits, Pow;
    var xn, t := x.len, y.Sub(n, r);
    var tn := xn + r;
    var zl, zh, zt := z.Sub(0, n), z.Sub(n, xn), z.Sub(n, tn);
    var zz := z.Sub(0, n + xn);
    SpanSplit(zz, n);
    assert zz.Sub(0, n) == zl && zz.Sub(n, xn) == zh;
    SpanSub(y, n, r);
    SpanBound(x);
    ghost var x0, ys, h: int, l: int := x.Value(), y.Digits(), zh.Value(), zl.Value();
    var c;
    if 2 * tn <= z.len - n {
      c := SliceBeside(f, z, x, t, w, n);
    } else {
      c := SliceOver(f, z, x, t, w, n);
    }
    var zu := z.Sub(0, n + tn);
    SpanSplit(zu, n);
    assert zu.Sub(0, n) == zl && zu.Sub(n, tn) == zt;
    SpanBound(zu);
    BalanceStep(zt.Value(), h, l, x0, ys, c, n, r, xn);
    NoCarryLeft(zu.Value(), x0 * Val(ys[..n + r]), c, n + tn);
  }

  lemma BalanceStep(t: int, h: int, l: int, x: int, ys: seq<Digit>, c: int, n: nat, r: nat, xn: nat)
    requires n + r <= |ys| && 0 <= x < Pow(xn)
    requires t + Shl(c, xn + r) == h + x * Val(ys[n..n + r]) && l + Shl(h, n) == x * Val(ys[..n])
    ensures l + Shl(t, n) + Shl(c, n + xn + r) == x * Val(ys[..n + r])
    ensures 0 <= x * Val(ys[..n + r]) < Pow(n + xn + r)
  {
    hide Val, Shl;
    var y0, y1 := Val(ys[..n]), Val(ys[n..n + r]);
    assert ys[..n + r][..n] == ys[..n] && ys[..n + r][n..] == ys[n..n + r];
    ValSplit(ys[..n + r], n);
    ShlJoin(t, c, xn + r, n);
    ShlAdd(h, x * y1, n);
    ShlScale(x, y1, n);
    MulDistrib(x, y0, Shl(y1, n));
    ValBound(ys[..n + r]);
    ProductBound(x, Val(ys[..n + r]), xn, n + r);
  }

  /** There is room above for the product of the slice. */
  method SliceBeside(f: MulFunc, z: Span, x: Span, t: Span, w: Span, n: nat) returns (c: nat)
    requires z.Valid() && x.Valid() && t.Valid() && w.Valid() && z.Disjoint(x) && z.Disjoint(t) && z.Disjoint(w)
             && w.Disjoint(x) && w.Disjoint(t)
    requires 0 < t.len <= x.len && n + 2 * (x.len + t.len) <= z.len
    modifies z.buf, w.buf
    ensures z.Sub(n, x.len + t.len).Value() + Shl(c, x.len + t.len) ==
            old(z.Sub(n, x.len).Value() + x.Value() * t.Value())
    ensures z.Sub(0, n).Digits() == old(z.Sub(0, n).Digits())
    ensures forall s: Span {:trigger s.Digits()} ::
      old(allocated(s)) && s.Valid() && s.Disjoint(z) && s.Disjoint(w) ==> s.Digits() == old(s.Digits())
    decreases x.len + t.len, 8
  {
    hide Val, Shl, Span.Digits;
    var xn, r := x.len, t.len;
    var tn := xn + r;
    var zh, za, zt, p := z.Sub(n, xn), z.Sub(n + xn, r), z.Sub(n, tn), z.Sub(n + tn, tn);
    Start(f, p, x, t, w);
    Fill(za, 0);
    ValZeros(za.Digits());
    SpanSplit(zt, xn);
    assert zt.Sub(0, xn) == zh && zt.Sub(xn, r) == za;
    ShlUnit(xn);
    c := Add(zt, zt, p);
  }

  /** There is not: what is there goes to the work area, which is allocated if too small. */
  method SliceOver(f: MulFunc, z: Span, x: Span, t: Span, w: Span, n: nat) returns (c: nat)
    requires z.Valid() && x.Valid() && t.Valid() && w.Valid() && z.Disjoint(x) && z.Disjoint(t) && z.Disjoint(w)
             && w.Disjoint(x) && w.Disjoint(t)
    requires 0 < t.len <= x.len && n + x.len + t.len <= z.len
    modifies z.buf, w.buf
    ensures z.Sub(n, x.len + t.len).Value() + Shl(c, x.len + t.len) ==
            old(z.Sub(n, x.len).Value() + x.Value() * t.Value())
    ensures z.Sub(0, n).Digits() == old(z.Sub(0, n).Digits())
    ensures forall s: Span {:trigger s.Digits()} ::
      old(allocated(s)) && s.Valid() && s.Disjoint(z) && s.Disjoint(w) ==> s.Digits() == old(s.Digits())
    decreases x.len + t.len, 8
  {
    hide Val, Shl, Span.Digits;
    var xn, r, v := x.len, t.len, w;
    if w.len < xn {
      var work := new Digit[xn];
      v := Span(work, 0, xn);
    }
    var zh, zt, v0 := z.Sub(n, xn), z.Sub(n, xn + r), v.Sub(0, xn);
    Copy(v0, zh);
    Start(f, zt, x, t, v.Sub(xn, v.len - xn));
    c := Add(zt, zt, v0);
  }

  //----------------------------------------------------------------------------
  // bary_mul_karatsuba

  /** |x0 - x1| * |y0 - y1| in the middle of z, and whether the signs agree; for a square
      the second difference is the first. */
  method CrossProduct(z: Span, x: Span, y: Span, w: Span, n: nat, sq: bool) returns (subP: bool)
    requires Setup(z, x, y, w) && Layout(z, w, n) && y.len == 2 * n && n < x.len <= 2 * n && (sq ==> x == y)
    modifies z.buf, w.buf
    ensures var p := Cross(old(x.Sub(0, n).Value()), old(x.Sub(n, x.len - n).Value()), old(y.Sub(0, n).Value()),
                           old(y.Sub(n, n).Value()));
            z.Sub(n, 2 * n).Value() == if subP then p else -p
    ensures forall s: Span {:trigger s.Digits()} ::
      old(allocated(s)) && s.Valid() && s.Disjoint(z) && s.Disjoint(w) ==> s.Digits() == old(s.Digits())
    decreases x.len + y.len, 0
  {
    hide Val, Shl, Span.Digits, Pow, Cross;
    var x0, x1, y0, y1 := x.Sub(0, n), x.Sub(n, x.len - n), y.Sub(0, n), y.Sub(n, n);
    var z0, z12, w0 := z.Sub(0, n), z.Sub(n, 2 * n), w.Sub(0, n);
    ghost var a0, a1 := x0.Value(), x1.Value();
    subP := true;
    var negative := SubAbs(z0, x0, x1);
    if negative { subP := !subP; }
    if sq {
      AbsCross(a0, a1, a0, a1, z0.Value(), z0.Value(), negative, negative);
      subP := true;
      Start(KaratsubaStart, z12, z0, z0, w);
    } else {
      var negative' := CrossSecond(z, y, w, n, a0, a1, negative);
      if negative' { subP := !subP; }
    }
  }

  /** The second difference, and the product. */
  method CrossSecond(z: Span, y: Span, w: Span, n: nat, ghost x0: int, ghost x1: int, ghost nx: bool) returns (ny: bool)
    requires Layout(z, w, n) && y.Valid() && y.len == 2 * n && z.Disjoint(y) && w.Disjoint(y)
    requires z.Sub(0, n).Value() == if nx then x1 - x0 else x0 - x1
    modifies z.buf, w.buf
    ensures var p := Cross(x0, x1, old(y.Sub(0, n).Value()), old(y.Sub(n, n).Value()));
            z.Sub(n, 2 * n).Value() == if nx == ny then p else -p
    ensures forall s: Span {:trigger s.Digits()} ::
      old(allocated(s)) && s.Valid() && s.Disjoint(z) && s.Disjoint(w) ==> s.Digits() == old(s.Digits())
    decreases 2 * n, 8
  {
    hide Val, Shl, Span.Digits, Pow, Cross;
    var z0, w0, y0, y1 := z.Sub(0, n), w.Sub(0, n), y.Sub(0, n), y.Sub(n, n);
    ghost var b0, b1 := y0.Value(), y1.Value();
    ny := SubAbs(w0, y0, y1);
    AbsCross(x0, x1, b0, b1, z0.Value(), w0.Value(), nx, ny);
    Start(KaratsubaStart, z.Sub(n, 2 * n), z0, w0, w.Sub(n, w.len - n));
  }

  lemma AbsProduct(dx: int, dy: int, a: int, b: int, nx: bool, ny: bool)
    requires a == (if nx then -dx else dx) && b == (if ny then -dy else dy)
    ensures a * b == if nx == ny then dx * dy else -(dx * dy)
  {}

  lemma AbsCross(x0: int, x1: int, y0: int, y1: int, a: int, b: int, nx: bool, ny: bool)
    requires a == (if nx then x1 - x0 else x0 - x1) && b == (if ny then y1 - y0 else y0 - y1)
    ensures a * b == if nx == ny then Cross(x0, x1, y0, y1) else -Cross(x0, x1, y0, y1)
  {
    AbsProduct(x0 - x1, y0 - y1, a, b, nx, ny);
  }

  /** The middle term: the cross product, complemented when the signs agree, is left
      modulo b^2n in the first n digits of w and the third quarter of z. */
  method CrossTerm(z: Span, x: Span, y: Span, w: Span, n: nat, sq: bool) returns (borrow: nat)
    requires Setup(z, x, y, w) && Layout(z, w, n) && y.len == 2 * n && n < x.len <= 2 * n && (sq ==> x == y)
    modifies z.buf, w.buf
    ensures borrow <= 1
    ensures w.Sub(0, n).Value() + Shl(z.Sub(2 * n, n).Value(), n) - Shl(borrow, 2 * n)
            == -Cross(old(x.Sub(0, n).Value()), old(x.Sub(n, x.len - n).Value()), old(y.Sub(0, n).Value()),
                      old(y.Sub(n, n).Value()))
    ensures forall s: Span {:trigger s.Digits()} ::
      old(allocated(s)) && s.Valid() && s.Disjoint(z) && s.Disjoint(w) ==> s.Digits() == old(s.Digits())
    decreases x.len + y.len, 1
  {
    hide Val, Shl, Span.Digits, Pow, Cross;
    ghost var p: int := Cross(x.Sub(0, n).Value(), x.Sub(n, x.len - n).Value(), y.Sub(0, n).Value(),
                              y.Sub(n, n).Value());
    var z12, z1, z2, w0 := z.Sub(n, 2 * n), z.Sub(n, n), z.Sub(2 * n, n), w.Sub(0, n);
    var subP := CrossProduct(z, x, y, w, n, sq);
    borrow := NegateIf(z12, subP);
    SpanSplit(z12, n);
    assert z12.Sub(0, n) == z1 && z12.Sub(n, n) == z2;
    Copy(w0, z1);
  }

  /** The complement, if asked for, with the borrow that makes it the negative number. */
  method NegateIf(z: Span, subP: bool) returns (borrow: nat)
    requires z.Valid()
    modifies z.buf
    ensures borrow <= 1 && z.Value() - Shl(borrow, z.len) == if subP then -old(z.Value() as int) else old(z.Value())
    ensures forall s: Span {:trigger s.Digits()} ::
      old(allocated(s)) && s.Valid() && s.Disjoint(z) ==> s.Digits() == old(s.Digits())
  {
    hide Val, Shl, Span.Digits, Pow;
    borrow := 0;
    ShlUnit(z.len);
    if subP {
      var zero := TwoComp(z);
      borrow := if zero then 0 else 1;
    }
  }

  /** First half of the algorithm: middle term, x0*y0, and their sum at digit n. */
  method LowStage(z: Span, x: Span, y: Span, w: Span, n: nat, sq: bool) returns (borrow: nat, carry1: nat, carry2: nat)
    requires Setup(z, x, y, w) && Layout(z, w, n) && y.len == 2 * n && n < x.len <= 2 * n && (sq ==> x == y)
    modifies z.buf, w.buf
    ensures borrow <= 1 && carry1 <= 1 && carry2 <= 1
    ensures z.Sub(0, 2 * n).Value() + Shl(carry2, 2 * n) + Shl(w.Sub(0, n).Value() + Shl(carry1, n), 2 * n)
            - Shl(borrow, 3 * n)
            == LowTerm(old(x.Sub(0, n).Value()), old(x.Sub(n, x.len - n).Value()), old(y.Sub(0, n).Value()),
                       old(y.Sub(n, n).Value()), n)
    ensures forall s: Span {:trigger s.Digits()} ::
      old(allocated(s)) && s.Valid() && s.Disjoint(z) && s.Disjoint(w) ==> s.Digits() == old(s.Digits())
    decreases x.len + y.len, 2
  {
    hide Val, Shl, Span.Digits, Pow, Cross, LowTerm;
    var x0, x1, y0, y1 := x.Sub(0, n), x.Sub(n, x.len - n), y.Sub(0, n), y.Sub(n, n);
    ghost var a0: int, a1: int, b0: int, b1: int := x0.Value(), x1.Value(), y0.Value(), y1.Value();
    borrow := CrossTerm(z, x, y, w, n, sq);
    ghost var m: int := w.Sub(0, n).Value() + Shl(z.Sub(2 * n, n).Value(), n);
    carry1, carry2 := LowSum(z, x0, y0, w, n);
    LowTermIs(a0, a1, b0, b1, a0 * b0, m, borrow, n);
  }

  /** x0*y0, and its sum with the middle term. */
  method LowSum(z: Span, x0: Span, y0: Span, w: Span, n: nat) returns (carry1: nat, carry2: nat)
    requires Layout(z, w, n) && x0.Valid() && y0.Valid() && x0.len == y0.len == n
    requires z.Disjoint(x0) && z.Disjoint(y0) && w.Disjoint(x0) && w.Disjoint(y0)
    modifies z.buf, w.buf
    ensures carry1 <= 1 && carry2 <= 1
    ensures var p, m := old(x0.Value() * y0.Value()), old(w.Sub(0, n).Value() + Shl(z.Sub(2 * n, n).Value(), n));
            z.Sub(0, 2 * n).Value() + Shl(carry2, 2 * n) + Shl(w.Sub(0, n).Value() + Shl(carry1, n), 2 * n)
            == p + Shl(m + p, n)
    ensures forall s: Span {:trigger s.Digits()} ::
      old(allocated(s)) && s.Valid() && s.Disjoint(z) && s.Disjoint(w) ==> s.Digits() == old(s.Digits())
    decreases 2 * n, 8
  {
    hide Val, Shl, Span.Digits, Pow;
    Start(KaratsubaStart, z.Sub(0, 2 * n), x0, y0, w.Sub(n, w.len - n));
    carry1, carry2 := AddLowProduct(z, w, n);
  }

  lemma LowTermIs(x0: int, x1: int, y0: int, y1: int, p: int, m: int, borrow: int, n: nat)
    requires p == x0 * y0 && m - Shl(borrow, 2 * n) == -Cross(x0, x1, y0, y1)
    ensures p + Shl(m + p, n) - Shl(borrow, 3 * n) == LowTerm(x0, x1, y0, y1, n)
  {
    hide Shl, Cross;
    assert m + p == x0 * y0 - Cross(x0, x1, y0, y1) + Shl(borrow, 2 * n);
    ShlJoin(x0 * y0 - Cross(x0, x1, y0, y1), borrow, 2 * n, n);
  }

  ghost function LowTerm(x0: int, x1: int, y0: int, y1: int, n: nat): int
  {
    x0 * y0 + Shl(x0 * y0 - Cross(x0, x1, y0, y1), n)
  }

  /** The product of the differences of the halves. */
  ghost function Cross(x0: int, x1: int, y0: int, y1: int): int { (x0 - x1) * (y0 - y1) }

  /** Second half: x1*y1 at digits n and 2n, then what is left of the middle term. */
  method HighStage(z: Span, x1: Span, y1: Span, w: Span, n: nat, borrow: nat, carry1: nat, carry2: nat)
    returns (ghost k: int)
    requires z.Valid() && x1.Valid() && y1.Valid() && w.Valid() && Layout(z, w, n)
    requires z.Disjoint(x1) && z.Disjoint(y1) && w.Disjoint(x1) && w.Disjoint(y1)
    requires 0 < x1.len <= n && y1.len == n && 2 * n + x1.len + n <= z.len && borrow <= 1 && carry1 <= 1 && carry2 <= 1
    modifies z.buf, w.buf
    ensures z.Value() + Shl(k, z.len)
            == old(z.Sub(0, 2 * n).Value() + Shl(carry2, 2 * n) + Shl(w.Sub(0, n).Value() + Shl(carry1, n), 2 * n)
                   - Shl(borrow, 3 * n))
               + Shl(old(x1.Value() * y1.Value()), n) + Shl(old(x1.Value() * y1.Value()), 2 * n)
    ensures forall s: Span {:trigger s.Digits()} ::
      old(allocated(s)) && s.Valid() && s.Disjoint(z) && s.Disjoint(w) ==> s.Digits() == old(s.Digits())
    decreases x1.len + y1.len, 8
  {
    hide Val, Shl, Span.Digits;
    var w0, zl, zh := w.Sub(0, n), z.Sub(0, 2 * n), z.Sub(2 * n, z.len - 2 * n);
    HalfProduct(x1, y1, n);
    ghost var c: int, l: int, v: int := x1.Value() * y1.Value(), zl.Value(), w0.Value();
    Start(KaratsubaStart, zh, x1, y1, w.Sub(n, w.len - n));
    SpanSplit(z, 2 * n);
    var carry3 := AddHighProduct(z, n);
    SpanSplit(z, 2 * n);
    ghost var l1: int, h1: int := zl.Value(), zh.Value();
    k := FinishCarries(zh, w0, n, carry2, carry1 + carry3 - borrow);
    SpanSplit(z, 2 * n);
    HighStageAlgebra(l, c, v, l1, h1, zh.Value(), k, carry1, carry2, carry3, borrow, n, z.len - 2 * n);
  }

  lemma HighStageAlgebra(l: int, c: int, v: int, l1: int, h1: int, h2: int, k: int, c1: int, c2: int, c3: int, b: int,
                         n: nat, m: nat)
    requires l1 + Shl(h1, 2 * n) + Shl(c3, 3 * n) == l + Shl(c, 2 * n) + Shl(c, n)
    requires h2 + Shl(k, m) == h1 + v + c2 + Shl(c1 + c3 - b, n)
    ensures l1 + Shl(h2, 2 * n) + Shl(k, 2 * n + m)
            == l + Shl(c2, 2 * n) + Shl(v + Shl(c1, n), 2 * n) - Shl(b, 3 * n) + Shl(c, n) + Shl(c, 2 * n)
  {
    hide Shl;
    ShlJoin(h2, k, m, 2 * n);
    ShlJoin(h1 + v + c2, c1 + c3 - b, n, 2 * n);
    ShlAdd(h1 + v, c2, 2 * n);
    ShlAdd(h1, v, 2 * n);
    ShlAdd(c1 + c3, -b, 3 * n);
    ShlAdd(c1, c3, 3 * n);
    ShlNeg(b, 3 * n);
    ShlJoin(v, c1, n, 2 * n);
  }

  /** Even lengths: x = x0 + x1*b^n, y = y0 + y1*b^n with 2n digits.  The carries are
      collected modulo b^zn; the product is below that, so the result is exact. */
  method KaratsubaEven(z: Span, x: Span, y: Span, w: Span, n: nat, sq: bool)
    requires Setup(z, x, y, w) && Layout(z, w, n) && y.len == 2 * n && n < x.len <= 2 * n && (sq ==> x == y)
    modifies z.buf, w.buf
    ensures z.Value() == old(x.Value()) * old(y.Value())
    ensures forall s: Span {:trigger s.Digits()} ::
      old(allocated(s)) && s.Valid() && s.Disjoint(z) && s.Disjoint(w) ==> s.Digits() == old(s.Digits())
    decreases x.len + y.len, 3
  {
    hide Val, Shl, Span.Digits, LowTerm;
    var x0, x1, y0, y1 := x.Sub(0, n), x.Sub(n, x.len - n), y.Sub(0, n), y.Sub(n, n);
    SpanSplit(x, n);
    SpanSplit(y, n);
    SpanBound(x);
    SpanBound(y);
    ProductBound(x.Value(), y.Value(), x.len, y.len);
    PowMonotone(x.len + y.len, z.len);
    KaratsubaIdentity(x0.Value(), x1.Value(), y0.Value(), y1.Value(), n);
    var borrow, carry1, carry2 := LowStage(z, x, y, w, n, sq);
    ghost var k := HighStage(z, x1, y1, w, n, borrow, carry1, carry2);
    SpanBound(z);
    NoCarryLeft(z.Value(), old(x.Value()) * old(y.Value()), k, z.len);
  }

  lemma KaratsubaIdentity(x0: int, x1: int, y0: int, y1: int, n: nat)
    ensures LowTerm(x0, x1, y0, y1, n) + Shl(x1 * y1, n) + Shl(x1 * y1, 2 * n) == (x0 + Shl(x1, n)) * (y0 + Shl(y1, n))
  {
    hide Shl;
    Expand(x0, Shl(x1, n), y0, Shl(y1, n));
    ShlScale(x0, y1, n);
    ShlScale(y0, x1, n);
    StripProduct(x1, y1, n, n);
    CrossIdentity(x0, x1, y0, y1);
    ShlAdd(x0 * y0 - (x0 - x1) * (y0 - y1), x1 * y1, n);
    ShlAdd(x0 * y1, y0 * x1, n);
  }

  lemma Expand(a: int, b: int, c: int, d: int)
    ensures (a + b) * (c + d) == a * c + a * d + c * b + b * d
  {}

  lemma CrossIdentity(x0: int, x1: int, y0: int, y1: int)
    ensures x0 * y0 - (x0 - x1) * (y0 - y1) + x1 * y1 == x0 * y1 + y0 * x1
  {}

  lemma HalfProduct(x1: Span, y1: Span, n: nat)
    requires x1.Valid() && y1.Valid() && x1.len <= n && y1.len == n
    ensures x1.Value() * y1.Value() < Pow(2 * n)
  {
    hide Val;
    SpanBound(x1);
    SpanBound(y1);
    PowMonotone(x1.len, n);
    ProductBound(x1.Value(), y1.Value(), n, n);
  }

  /** `bary_mul_karatsuba`: an odd last digit of y, and of x when both are odd and equally
      long, is multiplied separately; too small a work area is replaced. */
  method Karatsuba(z: Span, x: Span, y: Span, w: Span)
    requires Setup(z, x, y, w) && x.len <= y.len < 2 * x.len && 2 <= x.len
    modifies z.buf, w.buf
    ensures z.Value() == old(x.Value()) * old(y.Value())
    ensures forall s: Span {:trigger s.Digits()} ::
      old(allocated(s)) && s.Valid() && s.Disjoint(z) && s.Disjoint(w) ==> s.Digits() == old(s.Digits())
    decreases x.len + y.len, 4
  {
    hide Val, Shl, Span.Digits;
    var sq := x == y;
    var xn, yn := x.len, y.len;
    var oddY, oddXY := false, false;
    if yn % 2 == 1 {
      oddY := true;
      yn := yn - 1;
      if yn < xn {
        oddXY := true;
        xn := xn - 1;
      }
    }
    var n := yn / 2;
    var v := w;
    if w.len < n {
      var work := new Digit[2 * n];
      v := Span(work, 0, 2 * n);
    }
    var xe, ye := x.Sub(0, xn), y.Sub(0, yn);
    KaratsubaEven(z, xe, ye, v, n, sq);
    if oddXY {
      OddBoth(z, x, y);
    } else if oddY {
      OddLonger(z, x, y);
    }
  }

  /** y has one digit more than was multiplied. */
  method OddLonger(z: Span, x: Span, y: Span)
    requires z.Valid() && x.Valid() && y.Valid() && 0 < y.len && x.len + y.len <= z.len && z.Disjoint(x)
             && z.Disjoint(y)
    requires z.Value() == x.Value() * y.Sub(0, y.len - 1).Value()
    modifies z.buf
    ensures z.Value() == old(x.Value()) * old(y.Value())
    ensures forall s: Span {:trigger s.Digits()} ::
      old(allocated(s)) && s.Valid() && s.Disjoint(z) ==> s.Digits() == old(s.Digits())
  {
    hide Val, Shl, Span.Digits;
    var m := y.len - 1;
    SpanSplit(y, m);
    OneDigitValue(y.Sub(m, 1));
    SpanBound(x);
    SpanBound(y);
    ProductBound(x.Value(), y.Value(), x.len, y.len);
    PowMonotone(x.len + y.len, z.len);
    ghost var a: int, b: int, d: int := x.Value(), y.Sub(0, m).Value(), y.buf[y.off + m];
    assert y.Value() == b + Shl(d, m);
    var k := MulAddAt(z, m, y.buf[y.off + m], x);
    SpanBound(z);
    OddDigit(a, b, d, m);
    NoCarryLeft(z.Value(), a * (b + Shl(d, m)), k, z.len);
  }

  lemma OddDigit(a: int, b: int, d: int, m: nat)
    ensures a * (b + Shl(d, m)) == a * b + Shl(d * a, m)
  {
    ShlScale(a, d, m);
    MulDistrib(a, b, Shl(d, m));
    assert a * d == d * a;
  }

  /** Both have one digit more. */
  method OddBoth(z: Span, x: Span, y: Span)
    requires z.Valid() && x.Valid() && y.Valid() && 0 < y.len && 0 < x.len && x.len + y.len <= z.len && z.Disjoint(x)
             && z.Disjoint(y)
    requires z.Value() == x.Sub(0, x.len - 1).Value() * y.Sub(0, y.len - 1).Value()
    modifies z.buf
    ensures z.Value() == old(x.Value()) * old(y.Value())
    ensures forall s: Span {:trigger s.Digits()} ::
      old(allocated(s)) && s.Valid() && s.Disjoint(z) ==> s.Digits() == old(s.Digits())
  {
    hide Val, Shl, Span.Digits;
    OddLonger(z, x.Sub(0, x.len - 1), y);
    OddLonger(z, y, x);
  }

  //----------------------------------------------------------------------------
  // bary_mul_toom3
  //
  // The work area holds u1, u2, u3, v1, v2, v3 (n+1 digits each), t0 (2n), t1, t2, t3
  // (2n+2 each), t4 (2n), z1, z2, z3 (2n+1 each), and then what the recursive calls use.
  // The sum zz of 6n+1 digits is laid over the u and v, which are no longer needed then.

  function WorkDigits(n: nat): nat { 22 * n + 15 }

  ghost predicate Toom3Layout(x: Span, y: Span, w: Span, n: nat, sq: bool)
  {
    && x.Valid() && y.Valid() && w.Valid() && w.Disjoint(x) && w.Disjoint(y)
    && 0 < n && WorkDigits(n) <= w.len && 2 * n < x.len <= y.len <= 3 * n && (sq ==> x == y)
  }

  /** The value of part i of an operand cut into n, n and the remaining digits. */
  ghost function Part(x: Span, n: nat, i: nat): int
    requires x.Valid() && 2 * n <= x.len && i <= 2
    reads x.buf
  {
    if i == 0 then x.Sub(0, n).Value() else if i == 1 then x.Sub(n, n).Value() else x.Sub(2 * n, x.len - 2 * n).Value()
  }

  method EvaluateAt(w: Span, k: nat, x: Span, n: nat) returns (u2p: bool, u3p: bool)
    requires x.Valid() && w.Valid() && w.Disjoint(x) && 0 < n && 2 * n < x.len <= 3 * n && k + 3 * n + 3 <= w.len
    modifies w.buf
    ensures w.Sub(k, n + 1).Value() == old(Part(x, n, 0) + Part(x, n, 1) + Part(x, n, 2))
    ensures Signed(u2p, w.Sub(k + n + 1, n + 1).Value()) == old(Part(x, n, 0) - Part(x, n, 1) + Part(x, n, 2))
    ensures Signed(u3p, w.Sub(k + 2 * n + 2, n + 1).Value()) ==
            old(Part(x, n, 0) - 2 * Part(x, n, 1) + 4 * Part(x, n, 2))
    ensures forall s: Span {:trigger s.Digits()} ::
      old(allocated(s)) && s.Valid() && s.Disjoint(w.Sub(k, 3 * n + 3)) ==> s.Digits() == old(s.Digits())
  {
    hide Val, Shl, Span.Digits, Signed;
    var x0, x1, x2 := x.Sub(0, n), x.Sub(n, n), x.Sub(2 * n, x.len - 2 * n);
    u2p, u3p := Evaluate(w.Sub(k, n + 1), w.Sub(k + n + 1, n + 1), w.Sub(k + 2 * n + 2, n + 1), x0, x1, x2, n);
  }

  /** One of the five products, at a point. */
  method PointProduct(t: Span, u: Span, v: Span, w: Span, m: nat, ghost p: int)
    requires Setup(t, u, v, w) && t.len == m + 1 && u.Value() * v.Value() == p && 0 <= p < Pow(m)
    modifies t.buf, w.buf
    ensures t.Digits()[m] == 0 && t.Sub(0, m).Value() == p
    ensures forall s: Span {:trigger s.Digits()} ::
      old(allocated(s)) && s.Valid() && s.Disjoint(t) && s.Disjoint(w) ==> s.Digits() == old(s.Digits())
    decreases u.len + v.len, 8
  {
    hide Val, Shl, Span.Digits;
    Start(Toom3Start, t, u, v, w);
    DropTop(t, m);
  }

  ghost function PartsProduct(x: Span, y: Span, n: nat): Coeffs
    requires x.Valid() && y.Valid() && 2 * n <= x.len && 2 * n <= y.len
    reads x.buf, y.buf
  {
    Product(Part(x, n, 0), Part(x, n, 1), Part(x, n, 2), Part(y, n, 0), Part(y, n, 1), Part(y, n, 2))
  }

  /** The values of an operand at 1, -1 and -2, from place k of the work area on. */
  ghost predicate EvaluatedAt(w: Span, k: nat, n: nat, u2p: bool, u3p: bool, x0: int, x1: int, x2: int)
    reads w.buf
  {
    && w.Valid() && k + 3 * n + 3 <= w.len
    && w.Sub(k, n + 1).Value() == x0 + x1 + x2
    && Signed(u2p, w.Sub(k + n + 1, n + 1).Value()) == x0 - x1 + x2
    && Signed(u3p, w.Sub(k + 2 * n + 2, n + 1).Value()) == x0 - 2 * x1 + 4 * x2
  }

  method EvaluatePair(x: Span, y: Span, w: Span, n: nat, sq: bool)
    returns (kv: nat, u2p: bool, u3p: bool, v2p: bool, v3p: bool)
    requires Toom3Layout(x, y, w, n, sq)
    modifies w.buf
    ensures kv == if sq then 0 else 3 * n + 3
    ensures EvaluatedAt(w, 0, n, u2p, u3p, old(Part(x, n, 0)), old(Part(x, n, 1)), old(Part(x, n, 2)))
    ensures EvaluatedAt(w, kv, n, v2p, v3p, old(Part(y, n, 0)), old(Part(y, n, 1)), old(Part(y, n, 2)))
    ensures forall s: Span {:trigger s.Digits()} ::
      old(allocated(s)) && s.Valid() && s.Disjoint(w.Sub(0, 6 * n + 6)) ==> s.Digits() == old(s.Digits())
  {
    hide Val, Shl, Span.Digits, Signed, Part;
    PartFrame(y, n);
    u2p, u3p := EvaluateAt(w, 0, x, n);
    PartFrame(y, n);
    kv, v2p, v3p := 0, u2p, u3p;
    if !sq {
      kv := 3 * n + 3;
      v2p, v3p := EvaluateSecond(y, w, n, u2p, u3p, old(Part(x, n, 0)), old(Part(x, n, 1)), old(Part(x, n, 2)));
    }
  }

  /** The values of the first operand stay. */
  method EvaluateSecond(y: Span, w: Span, n: nat, ghost u2p: bool, ghost u3p: bool, ghost x0: int, ghost x1: int,
                        ghost x2: int)
    returns (v2p: bool, v3p: bool)
    requires y.Valid() && w.Valid() && w.Disjoint(y) && 0 < n && 2 * n < y.len <= 3 * n && 6 * n + 6 <= w.len
    requires EvaluatedAt(w, 0, n, u2p, u3p, x0, x1, x2)
    modifies w.buf
    ensures EvaluatedAt(w, 0, n, u2p, u3p, x0, x1, x2)
    ensures EvaluatedAt(w, 3 * n + 3, n, v2p, v3p, old(Part(y, n, 0)), old(Part(y, n, 1)), old(Part(y, n, 2)))
    ensures forall s: Span {:trigger s.Digits()} ::
      old(allocated(s)) && s.Valid() && s.Disjoint(w.Sub(3 * n + 3, 3 * n + 3)) ==> s.Digits() == old(s.Digits())
  {
    hide Val, Shl, Span.Digits, Signed, Part;
    v2p, v3p := EvaluateAt(w, 3 * n + 3, y, n);
  }

  /** Step 1a: the operands at 1, -1 and -2; for a square the second evaluation is the
      first.  The result says where the second one starts and which signs agree. */
  method EvaluateBoth(x: Span, y: Span, w: Span, n: nat, sq: bool) returns (kv: nat, t2p: bool, t3p: bool)
    requires Toom3Layout(x, y, w, n, sq)
    modifies w.buf
    ensures kv == if sq then 0 else 3 * n + 3
    ensures var c := old(PartsProduct(x, y, n));
            && w.Sub(0, n + 1).Value() * w.Sub(kv, n + 1).Value() == c.At1()
            && Signed(t2p, w.Sub(n + 1, n + 1).Value() * w.Sub(kv + n + 1, n + 1).Value()) == c.AtMinus1()
            && Signed(t3p, w.Sub(2 * n + 2, n + 1).Value() * w.Sub(kv + 2 * n + 2, n + 1).Value()) == c.AtMinus2()
    ensures forall s: Span {:trigger s.Digits()} ::
      old(allocated(s)) && s.Valid() && s.Disjoint(w.Sub(0, 6 * n + 6)) ==> s.Digits() == old(s.Digits())
  {
    hide Val, Shl, Span.Digits, Signed, Part, Product, Coeffs.At1, Coeffs.AtMinus1, Coeffs.AtMinus2;
    ProductAtPoints(Part(x, n, 0), Part(x, n, 1), Part(x, n, 2), Part(y, n, 0), Part(y, n, 1), Part(y, n, 2));
    var u2p, u3p, v2p, v3p;
    kv, u2p, u3p, v2p, v3p := EvaluatePair(x, y, w, n, sq);
    t2p, t3p := u2p == v2p, u3p == v3p;
    SignedProduct(u2p, w.Sub(n + 1, n + 1).Value(), v2p, w.Sub(kv + n + 1, n + 1).Value());
    SignedProduct(u3p, w.Sub(2 * n + 2, n + 1).Value(), v3p, w.Sub(kv + 2 * n + 2, n + 1).Value());
  }

  lemma PartFrame(y: Span, n: nat)
    requires y.Valid() && 2 * n <= y.len
    ensures Part(y, n, 0) == y.Sub(0, n).Value() && Part(y, n, 1) == y.Sub(n, n).Value()
    ensures Part(y, n, 2) == y.Sub(2 * n, y.len - 2 * n).Value()
  {}

  lemma SignedProduct(p: bool, u: int, q: bool, v: int)
    ensures Signed(p == q, u * v) == Signed(p, u) * Signed(q, v)
  {}

  /** The pieces of the work area: the values of the two operands, of the product, the
      coefficients, and the rest. */
  datatype Pieces = Pieces(u1: Span, u2: Span, u3: Span, v1: Span, v2: Span, v3: Span,
                           t0: Span, t1: Span, t2: Span, t3: Span, t4: Span,
                           z1: Span, z2: Span, z3: Span, rest: Span)

  function Carve(w: Span, n: nat, kv: nat): Pieces
    requires WorkDigits(n) <= w.len && kv + 3 * n + 3 <= 6 * n + 6
  {
    Pieces(w.Sub(0, n + 1), w.Sub(n + 1, n + 1), w.Sub(2 * n + 2, n + 1),
           w.Sub(kv, n + 1), w.Sub(kv + n + 1, n + 1), w.Sub(kv + 2 * n + 2, n + 1),
           w.Sub(6 * n + 6, 2 * n), w.Sub(8 * n + 6, 2 * n + 2), w.Sub(10 * n + 8, 2 * n + 2),
           w.Sub(12 * n + 10, 2 * n + 2),
           w.Sub(14 * n + 12, 2 * n),
           w.Sub(16 * n + 12, 2 * n + 1), w.Sub(18 * n + 13, 2 * n + 1), w.Sub(20 * n + 14, 2 * n + 1),
           w.Sub(22 * n + 15, w.len - (22 * n + 15)))
  }

  ghost predicate ProductPieces(p: Pieces, n: nat)
  {
    && Point(p.u1, n + 1) && Point(p.u2, n + 1) && Point(p.u3, n + 1) && Point(p.v1, n + 1) && Point(p.v2, n + 1)
       && Point(p.v3, n + 1)
    && Point(p.t0, 2 * n) && Point(p.t1, 2 * n + 2) && Point(p.t2, 2 * n + 2) && Point(p.t3, 2 * n + 2)
       && Point(p.t4, 2 * n) && p.rest.Valid()
    && AllApart(p.t0, p.u1, p.u2, p.u3, p.v1, p.v2, p.v3) && AllApart(p.t1, p.u1, p.u2, p.u3, p.v1, p.v2, p.v3)
    && AllApart(p.t2, p.u1, p.u2, p.u3, p.v1, p.v2, p.v3) && AllApart(p.t3, p.u1, p.u2, p.u3, p.v1, p.v2, p.v3)
    && AllApart(p.t4, p.u1, p.u2, p.u3, p.v1, p.v2, p.v3) && AllApart(p.rest, p.u1, p.u2, p.u3, p.v1, p.v2, p.v3)
    && Apart(p.t0, p.t1) && Apart(p.t0, p.t2) && Apart(p.t0, p.t3) && Apart(p.t0, p.t4) && Apart(p.t1, p.t2)
       && Apart(p.t1, p.t3)
    && Apart(p.t1, p.t4) && Apart(p.t2, p.t3) && Apart(p.t2, p.t4) && Apart(p.t3, p.t4)
    && Apart(p.rest, p.t0) && Apart(p.rest, p.t1) && Apart(p.rest, p.t2) && Apart(p.rest, p.t3) && Apart(p.rest, p.t4)
  }

  lemma CarveProducts(w: Span, n: nat, kv: nat)
    requires w.Valid() && 0 < n && WorkDigits(n) <= w.len && kv + 3 * n + 3 <= 6 * n + 6
    ensures ProductPieces(Carve(w, n, kv), n)
  {}

  ghost predicate ApartFrom(x: Span, p: Pieces)
  {
    Apart(x, p.t0) && Apart(x, p.t1) && Apart(x, p.t2) && Apart(x, p.t3) && Apart(x, p.t4) && Apart(x, p.rest)
  }

  /** Step 1b: the five products, each with its top digit asserted zero where the buffer
      has one digit more than the next step reads. */
  method Products(x0: Span, x2: Span, y0: Span, y2: Span, p: Pieces, n: nat, t2p: bool, t3p: bool, ghost c: Coeffs)
    requires ProductPieces(p, n) && x0.Valid() && x2.Valid() && y0.Valid() && y2.Valid()
    requires ApartFrom(x0, p) && ApartFrom(x2, p) && ApartFrom(y0, p) && ApartFrom(y2, p)
    requires 0 < n && x0.len == y0.len == n && x2.len <= n && y2.len <= n
    requires c.Bounded(Pow(2 * n)) && x0.Value() * y0.Value() == c.c0 && x2.Value() * y2.Value() == c.c4
    requires p.u1.Value() * p.v1.Value() == c.At1()
    requires Signed(t2p, p.u2.Value() * p.v2.Value()) == c.AtMinus1()
    requires Signed(t3p, p.u3.Value() * p.v3.Value()) == c.AtMinus2()
    modifies p.t0.buf, p.t1.buf, p.t2.buf, p.t3.buf, p.t4.buf, p.rest.buf
    ensures p.t0.Value() == c.c0 && p.t1.Sub(0, 2 * n + 1).Value() == c.At1() && p.t4.Value() == c.c4
    ensures Signed(t2p, p.t2.Sub(0, 2 * n + 1).Value()) == c.AtMinus1()
    ensures Signed(t3p, p.t3.Sub(0, 2 * n + 1).Value()) == c.AtMinus2()
    ensures p.t1.Digits()[2 * n + 1] == 0 && p.t2.Digits()[2 * n + 1] == 0 && p.t3.Digits()[2 * n + 1] == 0
    ensures forall s: Span {:trigger s.Digits()} ::
      (&& old(allocated(s)) && s.Valid() && s.Disjoint(p.t0) && s.Disjoint(p.t1) && s.Disjoint(p.t2)
       && s.Disjoint(p.t3) && s.Disjoint(p.t4) && s.Disjoint(p.rest)) ==>
        s.Digits() == old(s.Digits())
    decreases 2 * n + 2, 10
  {
    hide Val, Shl, Span.Digits, Signed, Coeffs.At1, Coeffs.AtMinus1, Coeffs.AtMinus2, Coeffs.Bounded, Pow,
         Span.Disjoint;
    PointBounds(p.u2.Value(), p.v2.Value(), p.u3.Value(), p.v3.Value(), n, t2p, t3p, c);
    Start(Toom3Start, p.t0, x0, y0, p.rest);
    ThreeProducts(p.t1, p.t2, p.t3, p.u1, p.u2, p.u3, p.v1, p.v2, p.v3, p.rest, n);
    SubApart(p.t1, p.t4, 2 * n + 1);
    SubApart(p.t2, p.t4, 2 * n + 1);
    SubApart(p.t3, p.t4, 2 * n + 1);
    SubApart(p.t1, p.rest, 2 * n + 1);
    SubApart(p.t2, p.rest, 2 * n + 1);
    SubApart(p.t3, p.rest, 2 * n + 1);
    Start(Toom3Start, p.t4, x2, y2, p.rest);
  }

  /** Neither span overlaps the other. */
  ghost predicate Apart(s: Span, t: Span) { s.Disjoint(t) && t.Disjoint(s) }

  ghost predicate AllApart(t: Span, u1: Span, u2: Span, u3: Span, v1: Span, v2: Span, v3: Span)
  {
    Apart(t, u1) && Apart(t, u2) && Apart(t, u3) && Apart(t, v1) && Apart(t, v2) && Apart(t, v3)
  }

  method ThreeProducts(t1: Span, t2: Span, t3: Span, u1: Span, u2: Span, u3: Span, v1: Span, v2: Span, v3: Span,
                       w: Span, n: nat)
    requires Point(u1, n + 1) && Point(u2, n + 1) && Point(u3, n + 1) && Point(v1, n + 1) && Point(v2, n + 1)
             && Point(v3, n + 1)
    requires Point(t1, 2 * n + 2) && Point(t2, 2 * n + 2) && Point(t3, 2 * n + 2) && w.Valid()
    requires AllApart(t1, u1, u2, u3, v1, v2, v3) && AllApart(t2, u1, u2, u3, v1, v2, v3)
             && AllApart(t3, u1, u2, u3, v1, v2, v3)
    requires AllApart(w, u1, u2, u3, v1, v2, v3) && Apart(t1, t2) && Apart(t1, t3) && Apart(t2, t3)
    requires Apart(w, t1) && Apart(w, t2) && Apart(w, t3)
    requires 0 <= u1.Value() * v1.Value() < Pow(2 * n + 1) && 0 <= u2.Value() * v2.Value() < Pow(2 * n + 1)
             && 0 <= u3.Value() * v3.Value() < Pow(2 * n + 1)
    modifies t1.buf, t2.buf, t3.buf, w.buf
    ensures t1.Sub(0, 2 * n + 1).Value() == old(u1.Value() * v1.Value()) && t1.Digits()[2 * n + 1] == 0
    ensures t2.Sub(0, 2 * n + 1).Value() == old(u2.Value() * v2.Value()) && t2.Digits()[2 * n + 1] == 0
    ensures t3.Sub(0, 2 * n + 1).Value() == old(u3.Value() * v3.Value()) && t3.Digits()[2 * n + 1] == 0
    ensures forall s: Span {:trigger s.Digits()} ::
      old(allocated(s)) && s.Valid() && s.Disjoint(t1) && s.Disjoint(t2) && s.Disjoint(t3) && s.Disjoint(w) ==>
        s.Digits() == old(s.Digits())
    decreases 2 * n + 2, 9
  {
    hide Val, Shl, Span.Digits, Pow, Span.Disjoint;
    SubApart(t1, t2, 2 * n + 1);
    SubApart(t1, t3, 2 * n + 1);
    SubApart(t2, t3, 2 * n + 1);
    SubApart(t1, w, 2 * n + 1);
    SubApart(t2, w, 2 * n + 1);
    PointProduct(t1, u1, v1, w, 2 * n + 1, u1.Value() * v1.Value());
    PointProduct(t2, u2, v2, w, 2 * n + 1, u2.Value() * v2.Value());
    PointProduct(t3, u3, v3, w, 2 * n + 1, u3.Value() * v3.Value());
  }

  lemma SubApart(s: Span, t: Span, m: nat)
    requires s.Disjoint(t) && m <= s.len
    ensures s.Sub(0, m).Disjoint(t)
  {}

  lemma PointBounds(u2: nat, v2: nat, u3: nat, v3: nat, n: nat, t2p: bool, t3p: bool, c: Coeffs)
    requires c.Bounded(Pow(2 * n)) && Signed(t2p, u2 * v2) == c.AtMinus1() && Signed(t3p, u3 * v3) == c.AtMinus2()
    ensures 0 <= c.At1() < Pow(2 * n + 1) && 0 <= u2 * v2 < Pow(2 * n + 1) && 0 <= u3 * v3 < Pow(2 * n + 1)
  {
    assert Pow(2 * n + 1) == 0x1_0000_0000 * Pow(2 * n);
    hide Pow;
    MulNonNegative(u2, v2);
    MulNonNegative(u3, v3);
  }

  lemma MulNonNegative(a: nat, b: nat)
    ensures 0 <= a * b
  {}

  ghost predicate InterpolationPieces(p: Pieces, zz: Span, n: nat)
  {
    && Point(p.t0, 2 * n) && Point(p.t1, 2 * n + 2) && Point(p.t2, 2 * n + 2) && Point(p.t3, 2 * n + 2)
       && Point(p.t4, 2 * n)
    && Point(p.z1, 2 * n + 1) && Point(p.z2, 2 * n + 1) && Point(p.z3, 2 * n + 1) && Point(zz, 6 * n + 1)
    && (var t1, t2, t3 := p.t1.Sub(0, 2 * n + 1), p.t2.Sub(0, 2 * n + 1), p.t3.Sub(0, 2 * n + 1);
        && Work(p.z1, 2 * n, p.t0, t1, t2, t3, p.z2) && Work(p.z2, 2 * n, p.t0, t1, t2, t3, p.z3)
           && Work(p.z3, 2 * n, p.t0, t1, t2, t3, p.z1))
    && Apart(p.z1, p.z2) && Apart(p.z1, p.z3) && Apart(p.z2, p.z3)
    && Apart(p.z1, p.t4) && Apart(p.z2, p.t4) && Apart(p.z3, p.t4) && Apart(p.z1, p.t0) && Apart(p.z2, p.t0)
       && Apart(p.z3, p.t0)
    && Apart(zz, p.t0) && Apart(zz, p.t4) && Apart(zz, p.z1) && Apart(zz, p.z2) && Apart(zz, p.z3)
  }

  lemma CarveInterpolation(w: Span, n: nat, kv: nat)
    requires w.Valid() && 0 < n && WorkDigits(n) <= w.len && kv + 3 * n + 3 <= 6 * n + 6
    ensures InterpolationPieces(Carve(w, n, kv), w.Sub(0, 6 * n + 1), n)
  {}

  /** Steps 2 and 3: the coefficients from the five values, and their sum. */
  method InterpolateAndSum(p: Pieces, zz: Span, n: nat, t2p: bool, t3p: bool, ghost c: Coeffs)
    requires 0 < n && InterpolationPieces(p, zz, n) && c.Bounded(Pow(2 * n)) && 0 <= Evaluated(c, n) < Pow(6 * n + 1)
    requires p.t0.Value() == c.c0 && p.t1.Sub(0, 2 * n + 1).Value() == c.At1() && p.t4.Value() == c.c4
    requires Signed(t2p, p.t2.Sub(0, 2 * n + 1).Value()) == c.AtMinus1()
    requires Signed(t3p, p.t3.Sub(0, 2 * n + 1).Value()) == c.AtMinus2()
    modifies p.z1.buf, p.z2.buf, p.z3.buf, zz.buf
    ensures zz.Value() == Evaluated(c, n)
    ensures forall s: Span {:trigger s.Digits()} ::
      old(allocated(s)) && s.Valid() && s.Disjoint(p.z1) && s.Disjoint(p.z2) && s.Disjoint(p.z3) && s.Disjoint(zz) ==>
        s.Digits() == old(s.Digits())
  {
    hide Val, Shl, Span.Digits, Signed, Coeffs.At1, Coeffs.AtMinus1, Coeffs.AtMinus2, Coeffs.Bounded, Pow,
         Span.Disjoint, Evaluated;
    var t1, t2, t3 := p.t1.Sub(0, 2 * n + 1), p.t2.Sub(0, 2 * n + 1), p.t3.Sub(0, 2 * n + 1);
    var z1p, z2p, z3p := InterpolateFirst(p.z1, p.z2, p.z3, p.t0, t1, t2, t2p, t3, t3p, 2 * n, c);
    z1p, z2p, z3p := InterpolateSecond(p.z1, p.z2, p.z3, p.t4, z1p, z2p, z3p, 2 * n, c);
    Recombine(zz, p.t0, p.t4, p.z1, z1p, p.z2, z2p, p.z3, z3p, n, c);
  }

  /** An operand is apart from every piece of the work area, and so are its parts. */
  lemma OperandApart(x: Span, w: Span, n: nat, kv: nat)
    requires x.Valid() && w.Valid() && w.Disjoint(x) && WorkDigits(n) <= w.len && kv + 3 * n + 3 <= 6 * n + 6
             && 2 * n <= x.len
    ensures ApartFrom(x.Sub(0, n), Carve(w, n, kv)) && ApartFrom(x.Sub(2 * n, x.len - 2 * n), Carve(w, n, kv))
    ensures x.Sub(0, n).Disjoint(w.Sub(0, 6 * n + 6)) && x.Sub(2 * n, x.len - 2 * n).Disjoint(w.Sub(0, 6 * n + 6))
  {}

  /** What is disjoint from the work area is disjoint from every piece of it. */
  lemma CarveFrame(w: Span, n: nat, kv: nat)
    requires w.Valid() && WorkDigits(n) <= w.len && kv + 3 * n + 3 <= 6 * n + 6
    ensures var p := Carve(w, n, kv);
            forall s: Span {:trigger s.Disjoint(w)} :: s.Disjoint(w) ==>
              && s.Disjoint(w.Sub(0, 6 * n + 6)) && s.Disjoint(w.Sub(0, 6 * n + 1)) && s.Disjoint(p.t0)
                 && s.Disjoint(p.t1) && s.Disjoint(p.t2)
              && s.Disjoint(p.t3) && s.Disjoint(p.t4) && s.Disjoint(p.rest) && s.Disjoint(p.z1) && s.Disjoint(p.z2)
                 && s.Disjoint(p.z3)
  {}

  /** Step 1: the five values of the product, in the work area. */
  method PointValues(x: Span, y: Span, w: Span, n: nat, sq: bool) returns (kv: nat, t2p: bool, t3p: bool)
    requires Toom3Layout(x, y, w, n, sq)
    modifies w.buf
    ensures kv + 3 * n + 3 <= 6 * n + 6
    ensures var c, p := old(PartsProduct(x, y, n)), Carve(w, n, kv);
            && InterpolationPieces(p, w.Sub(0, 6 * n + 1), n)
            && p.t0.Value() == c.c0 && p.t1.Sub(0, 2 * n + 1).Value() == c.At1() && p.t4.Value() == c.c4
            && Signed(t2p, p.t2.Sub(0, 2 * n + 1).Value()) == c.AtMinus1()
            && Signed(t3p, p.t3.Sub(0, 2 * n + 1).Value()) == c.AtMinus2()
    ensures forall s: Span {:trigger s.Digits()} ::
      old(allocated(s)) && s.Valid() && s.Disjoint(w) ==> s.Digits() == old(s.Digits())
    decreases x.len + y.len, 2
  {
    hide Val, Shl, Span.Digits, Signed, Coeffs.At1, Coeffs.AtMinus1, Coeffs.AtMinus2, Coeffs.Bounded, Pow, Evaluated,
         Span.Disjoint, Part, Product, ApartFrom, ProductPieces, InterpolationPieces;
    ghost var c := PartsProduct(x, y, n);
    PolynomialFacts(x, y, n);
    ghost var k := if sq then 0 else 3 * n + 3;
    OperandApart(x, w, n, k);
    OperandApart(y, w, n, k);
    CarveFrame(w, n, k);
    CarveProducts(w, n, k);
    CarveInterpolation(w, n, k);
    kv, t2p, t3p := EvaluateBoth(x, y, w, n, sq);
    Products(x.Sub(0, n), x.Sub(2 * n, x.len - 2 * n), y.Sub(0, n), y.Sub(2 * n, y.len - 2 * n), Carve(w, n, kv), n,
             t2p, t3p, c);
  }

  /** The whole algorithm within the work area. */
  method Toom3Sum(x: Span, y: Span, w: Span, n: nat, sq: bool)
    requires Toom3Layout(x, y, w, n, sq)
    modifies w.buf
    ensures w.Sub(0, 6 * n + 1).Value() == old(x.Value()) * old(y.Value())
    ensures forall s: Span {:trigger s.Digits()} ::
      old(allocated(s)) && s.Valid() && s.Disjoint(w) ==> s.Digits() == old(s.Digits())
    decreases x.len + y.len, 3
  {
    hide Val, Shl, Span.Digits, Signed, Coeffs.At1, Coeffs.AtMinus1, Coeffs.AtMinus2, Coeffs.Bounded, Pow, Evaluated,
         Span.Disjoint, Part, Product, InterpolationPieces;
    ghost var c := PartsProduct(x, y, n);
    PolynomialFacts(x, y, n);
    var kv, t2p, t3p := PointValues(x, y, w, n, sq);
    CarveFrame(w, n, kv);
    InterpolateAndSum(Carve(w, n, kv), w.Sub(0, 6 * n + 1), n, t2p, t3p, c);
  }

  lemma PolynomialFacts(x: Span, y: Span, n: nat)
    requires x.Valid() && y.Valid() && 0 < n && 2 * n < x.len <= y.len <= 3 * n
    ensures var c := PartsProduct(x, y, n);
            && c.Bounded(Pow(2 * n)) && Evaluated(c, n) == x.Value() * y.Value()
               && 0 <= Evaluated(c, n) < Pow(6 * n + 1)
            && x.Sub(0, n).Value() * y.Sub(0, n).Value() == c.c0
            && x.Sub(2 * n, x.len - 2 * n).Value() * y.Sub(2 * n, y.len - 2 * n).Value() == c.c4
  {
    hide Val, Shl, Evaluated, Coeffs.Bounded, Pow;
    PartValues(x, n);
    PartValues(y, n);
    ProductBounded(Part(x, n, 0), Part(x, n, 1), Part(x, n, 2), Part(y, n, 0), Part(y, n, 1), Part(y, n, 2), n);
    ProductEvaluated(Part(x, n, 0), Part(x, n, 1), Part(x, n, 2), Part(y, n, 0), Part(y, n, 1), Part(y, n, 2), n);
    SpanBound(x);
    SpanBound(y);
    ProductBound(x.Value(), y.Value(), x.len, y.len);
    PowMonotone(x.len + y.len, 6 * n + 1);
  }

  lemma PartValues(x: Span, n: nat)
    requires x.Valid() && 2 * n < x.len <= 3 * n
    ensures x.Value() == Part(x, n, 0) + Shl(Part(x, n, 1), n) + Shl(Part(x, n, 2), 2 * n)
    ensures 0 <= Part(x, n, 0) < Pow(n) && 0 <= Part(x, n, 1) < Pow(n) && 0 <= Part(x, n, 2) < Pow(n)
  {
    hide Val, Shl, Pow;
    var l, h := x.Sub(0, 2 * n), x.Sub(2 * n, x.len - 2 * n);
    SpanSplit(x, 2 * n);
    SpanSplit(l, n);
    assert l.Sub(0, n) == x.Sub(0, n) && l.Sub(n, n) == x.Sub(n, n);
    SpanBound(x.Sub(0, n));
    SpanBound(x.Sub(n, n));
    SpanBound(h);
    PowMonotone(h.len, n);
  }

  /** `bary_mul_toom3`; too small a work area is replaced. */
  method Toom3(z: Span, x: Span, y: Span, w: Span)
    requires Setup(z, x, y, w) && x.len <= y.len && Toom3Balanced(x.len, y.len)
    modifies z.buf, w.buf
    ensures z.Value() == old(x.Value()) * old(y.Value())
    ensures forall s: Span {:trigger s.Digits()} ::
      old(allocated(s)) && s.Valid() && s.Disjoint(z) && s.Disjoint(w) ==> s.Digits() == old(s.Digits())
    decreases x.len + y.len, 4
  {
    hide Val, Shl, Span.Digits, Pow;
    var n := (y.len + 2) / 3;
    var v := w;
    if w.len < WorkDigits(n) {
      var work := new Digit[WorkDigits(n) * 3 / 2];
      v := Span(work, 0, WorkDigits(n) * 3 / 2);
    }
    SpanBound(x);
    SpanBound(y);
    ProductBound(x.Value(), y.Value(), x.len, y.len);
    PowMonotone(x.len + y.len, z.len);
    Toom3Sum(x, y, v, n, x == y);
    CopyOut(z, v.Sub(0, 6 * n + 1));
  }

  /** `bary_mul`: small operands directly, others through Toom-3's dispatcher with no work
      area yet. */
  method Mul(z: Span, x: Span, y: Span)
    requires z.Valid() && x.Valid() && y.Valid() && x.len + y.len <= z.len && z.Disjoint(x) && z.Disjoint(y)
    modifies z.buf
    ensures z.Value() == old(x.Value()) * old(y.Value())
    ensures forall s: Span {:trigger s.Digits()} ::
      old(allocated(s)) && s.Valid() && s.Disjoint(z) ==> s.Digits() == old(s.Digits())
  {
    hide Val, Shl, Span.Digits;
    if x.len <= y.len {
      if x.len < KARATSUBA_MUL_DIGITS {
        if x == y {
          SqFast(z, x);
        } else {
          ShortMul(z, x, y);
        }
        return;
      }
    } else if y.len < KARATSUBA_MUL_DIGITS {
      ShortMul(z, y, x);
      return;
    }
    var none := new Digit[0];
    Start(Toom3Start, z, x, y, Span(none, 0, 0));
  }
}

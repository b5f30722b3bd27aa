/** Multiplication by one digit, schoolbook multiplication and squaring. */
module MulKernel {
  import opened Digits
  import opened AddSub

  //----------------------------------------------------------------------------
  // bary_muladd_1xN

  /** The loop over the digits of y. */
  method MulAddLoop(z: Span, x: Digit, y: Span) returns (n: DDigit)
    requires z.Valid() && y.Valid() && y.len == z.len && z.Disjoint(y)
    modifies z.buf
    ensures var cols := Columns(1, old(z.Digits()), x, old(y.Digits()), z.len);
            n == Carry(cols, 0, z.len) < 0x1_0000_0000 && Emitted(z, cols, 0, z.len)
  {
    hide Columns, Span.Digits, Shl, Carry, DigitOf;
    ghost var zs, ys := z.Digits(), y.Digits();
    SpanElements(z);
    SpanElements(y);
    ghost var cols := Columns(1, zs, x, ys, z.len);
    CarryStart(cols, 0);
    n := 0;
    var i := 0;
    while i < y.len
      invariant i <= y.len && n == Carry(cols, 0, i) < 0x1_0000_0000 && Emitted(z, cols, 0, i)
    {
      DigitProduct(x, ys[i]);
      CarryStep(cols, 0, i);
      assert cols[i] == zs[i] + x * ys[i];
      var ee: DDigit := n + x * y.buf[y.off + i];
      if ee != 0 {
        n := z.buf[z.off + i] + ee;
        z.buf[z.off + i] := Lo(n);
        n := Dn(n);
      } else {
        n := 0;
      }
      i := i + 1;
    }
  }

  /** The loop above the digits of y, while a carry is left. */
  method CarryLoop(z: Span, carry: Digit) returns (n: DDigit, i: nat)
    requires z.Valid()
    modifies z.buf
    ensures i <= z.len && (n == 0 || i == z.len)
    ensures var cols := Columns(1, old(z.Digits()), 0, [], z.len);
            n == Carry(cols, carry, i) < 0x1_0000_0000 && Emitted(z, cols, carry, i)
  {
    hide Columns, Span.Digits, Shl;
    ghost var zs := z.Digits();
    SpanElements(z);
    ghost var cols := Columns(1, zs, 0, [], z.len);
    n := carry;
    i := 0;
    while i < z.len && n != 0
      invariant i <= z.len && n == Carry(cols, carry, i) < 0x1_0000_0000 && Emitted(z, cols, carry, i)
    {
      assert cols[i] == zs[i];
      n := n + z.buf[z.off + i];
      z.buf[z.off + i] := Lo(n);
      n := Dn(n);
      i := i + 1;
    }
  }

  method MulAddLow(z: Span, x: Digit, y: Span) returns (n: Digit)
    requires z.Valid() && y.Valid() && y.len == z.len && z.Disjoint(y)
    modifies z.buf
    ensures z.Value() + Shl(n, z.len) == old(z.Value()) + x * old(y.Value())
    ensures forall s: Span {:trigger s.Digits()} ::
      old(allocated(s)) && s.Valid() && s.Disjoint(z) ==> s.Digits() == old(s.Digits())
  {
    hide Val, Shl, Columns, Carry, DigitOf;
    ghost var zs, ys := z.Digits(), y.Digits();
    n := MulAddLoop(z, x, y);
    ColumnsSum(1, zs, x, ys, z.len);
    ColumnValue(z.Digits(), Columns(1, zs, x, ys, z.len), 0);
  }

  method AddDigit(z: Span, carry: Digit) returns (n: Digit)
    requires z.Valid()
    modifies z.buf
    ensures z.Value() + Shl(n, z.len) == old(z.Value()) + carry
    ensures forall s: Span {:trigger s.Digits()} ::
      old(allocated(s)) && s.Valid() && s.Disjoint(z) ==> s.Digits() == old(s.Digits())
  {
    hide Val, Shl, Columns, Carry, DigitOf;
    ghost var zs := z.Digits();
    var i;
    n, i := CarryLoop(z, carry);
    ColumnsSumTo(1, zs, 0, [], z.len, i);
    ColumnValue(z.Sub(0, i).Digits(), Columns(1, zs, 0, [], z.len), carry);
    assert z.Digits()[..i] == z.Sub(0, i).Digits();
    KeepRest(z.Digits(), zs, i, n, carry + Val(zs[..i]));
  }

  /** `bary_muladd_1xN`: z + x*y; the digit carried out of z is returned. */
  method MulAdd(z: Span, x: Digit, y: Span) returns (n: Digit)
    requires z.Valid() && y.Valid() && y.len < z.len && z.Disjoint(y)
    modifies z.buf
    ensures z.Value() + Shl(n, z.len) == old(z.Value()) + x * old(y.Value())
    ensures forall s: Span {:trigger s.Digits()} ::
      old(allocated(s)) && s.Valid() && s.Disjoint(z) ==> s.Digits() == old(s.Digits())
  {
    hide Val, Shl, Span.Digits;
    if x == 0 {
      ShlUnit(z.len);
      return 0;
    }
    var k := y.len;
    var zl, zh := z.Sub(0, k), z.Sub(k, z.len - k);
    SpanSplit(z, k);
    ghost var a, b := zl.Value() + x * y.Value(), zh.Value();
    var c1 := MulAddLow(zl, x, y);
    n := AddDigit(zh, c1);
    SpanSplit(z, k);
    JoinCarry(zl.Value(), zh.Value(), a, b, c1, n, k, z.len - k);
  }

  //----------------------------------------------------------------------------
  // bary_mul_normal

  /** `bary_muladd_1xN` on `zds + i`: z + x*y*b^i. */
  method MulAddAt(z: Span, i: nat, x: Digit, y: Span) returns (n: int)
    requires z.Valid() && y.Valid() && i + y.len < z.len && z.Disjoint(y)
    modifies z.buf
    ensures z.Value() + Shl(n, z.len) == old(z.Value()) + Shl(x * old(y.Value()), i)
    ensures forall s: Span {:trigger s.Digits()} ::
      old(allocated(s)) && s.Valid() && s.Disjoint(z) ==> s.Digits() == old(s.Digits())
  {
    hide Val, Shl, Span.Digits;
    var zl, zh := z.Sub(0, i), z.Sub(i, z.len - i);
    SpanSplit(z, i);
    ghost var l, h, p := zl.Value(), zh.Value(), x * y.Value();
    n := MulAdd(zh, x, y);
    SpanSplit(z, i);
    JoinCarry(l, zh.Value(), l + Shl(p, i), h, p, n, i, z.len - i);
  }

  /** `bary_mul_normal`. */
  method MulNormal(z: Span, x: Span, y: Span)
    requires z.Valid() && x.Valid() && y.Valid() && x.len + y.len <= z.len
    requires z.Disjoint(x) && z.Disjoint(y)
    modifies z.buf
    ensures z.Value() == old(x.Value()) * old(y.Value())
    ensures forall s: Span {:trigger s.Digits()} ::
      old(allocated(s)) && s.Valid() && s.Disjoint(z) ==> s.Digits() == old(s.Digits())
  {
    hide Val, Shl, Span.Digits;
    ghost var xs, y0, k: int := x.Digits(), y.Value(), 0;
    SpanElements(x);
    SpanBound(y);
    Fill(z, 0);
    ValZeros(z.Digits());
    ValZeros(xs[..0]);
    ShlUnit(z.len);
    var i := 0;
    while i < x.len
      invariant i <= x.len
      invariant z.Value() + Shl(k, z.len) == Val(xs[..i]) * y0
      invariant forall s: Span {:trigger s.Digits()} ::
        old(allocated(s)) && s.Valid() && s.Disjoint(z) ==> s.Digits() == old(s.Digits())
    {
      assert x.Digits() == xs && y.Digits() == old(y.Digits());
      SpanElements(x);
      var n := MulAddAt(z, i, x.buf[x.off + i], y);
      ShlAdd(k, n, z.len);
      MulNormalStep(xs, i, y0);
      k := k + n;
      i := i + 1;
    }
    assert xs[..i] == xs;
    SpanBound(z);
    ValBound(xs);
    ProductBound(Val(xs), y0, x.len, y.len);
    PowMonotone(x.len + y.len, z.len);
    NoCarryLeft(z.Value(), Val(xs) * y0, k, z.len);
  }

  lemma MulNormalStep(xs: seq<Digit>, i: nat, y: int)
    requires i < |xs|
    ensures Val(xs[..i + 1]) * y == Val(xs[..i]) * y + Shl(xs[i] * y, i)
  {
    hide Val, Shl;
    ValPrefix(xs, i);
    ShlScale(y, xs[i], i);
    MulAdd2(Val(xs[..i]), Shl(xs[i], i), y);
  }

  lemma MulAdd2(a: int, b: int, y: int)
    ensures (a + b) * y == a * y + b * y && y * b == b * y
  {}

  //----------------------------------------------------------------------------
  // bary_sq_fast

  /** One row of Algorithm 14.16: with v the lowest digit of x, v*v goes to column 0 and
      2*v*x[j] to column j, for the digits above.  Started with -v*v, the columns of
      z + 2*v*x are those of the row. */
  method SqRowLoop(z: Span, x: Span, v: int) returns (c: DDigit)
    requires z.Valid() && x.Valid() && 0 < x.len == z.len && z.Disjoint(x) && v == x.Digits()[0]
    modifies z.buf
    ensures var cols := Columns(1, old(z.Digits()), 2 * v, old(x.Digits()), z.len);
            c == Carry(cols, -(v * v), z.len) <= 0x1_FFFF_FFFE && Emitted(z, cols, -(v * v), z.len)
  {
    hide Columns, Span.Digits, Carry, DigitOf;
    ghost var zs, xs := z.Digits(), x.Digits();
    SpanElements(z);
    SpanElements(x);
    ghost var cols := Columns(1, zs, 2 * v, xs, z.len);
    DigitProduct(v, v);
    ghost var c0: int := -(v * v);
    assert Carry(cols, c0, 0) == c0 by { CarryStart(cols, c0); }
    CarryStep(cols, c0, 0);
    assert cols[0] == zs[0] + 2 * (v * v) by { assert 2 * v * v == 2 * (v * v); }
    c := z.buf[z.off] + v * v;
    z.buf[z.off] := Lo(c);
    c := Dn(c);
    var vl: int, vh: int := Lo(2 * v), Dn(2 * v);
    var j := 1;
    while j < x.len
      invariant 1 <= j <= x.len
      invariant c == Carry(cols, c0, j) <= 0x1_FFFF_FFFE && Emitted(z, cols, c0, j)
    {
      var w: int := x.buf[x.off + j];
      CarryStep(cols, c0, j);
      SqColumn(v, vl, vh, w, c, zs[j], cols[j]);
      c := c + z.buf[z.off + j] + vl * w;
      z.buf[z.off + j] := Lo(c);
      c := Dn(c);
      if vh != 0 {
        c := c + w;
      }
      j := j + 1;
    }
  }

  /** The doubled digit is split as 2*v = vl + vh*b; vl is even, so a column with a carry
      of at most 2b - 2 still fits a `BDIGIT_DBL`, and the next carry is as small. */
  lemma SqColumn(v: int, vl: int, vh: int, w: int, c: int, z: int, col: int)
    requires 0 <= v < 0x1_0000_0000 && 0 <= w < 0x1_0000_0000 && 0 <= z < 0x1_0000_0000
    requires vl == Lo(2 * v) && vh == Dn(2 * v) && 0 <= c <= 0x1_FFFF_FFFE
    requires col == z + 2 * v * w
    ensures var t := c + z + vl * w;
            && 0 <= vh <= 1 && 0 <= t < 0x1_0000_0000_0000_0000
            && Lo(t) == Lo(c + col) && Dn(t) + vh * w == Dn(c + col)
            && 0 <= Dn(t) + vh * w <= 0x1_FFFF_FFFE
  {
    SqHalves(v, vl, vh);
    MulMonotone(vl, 0xFFFF_FFFE, w);
    MulAdd2(vl, 0x1_0000_0000 * vh, w);
    MulAssoc(0x1_0000_0000, vh, w);
    SqCarry(c, z, vl * w, vh * w, w, col);
  }

  lemma SqHalves(v: int, vl: int, vh: int)
    requires 0 <= v < 0x1_0000_0000 && vl == Lo(2 * v) && vh == Dn(2 * v)
    ensures 0 <= vl <= 0xFFFF_FFFE && 0 <= vh <= 1 && 2 * v == vl + 0x1_0000_0000 * vh
  {}

  /** In terms of the two products. */
  lemma SqCarry(c: int, z: int, lw: int, hw: int, w: int, col: int)
    requires 0 <= w < 0x1_0000_0000 && 0 <= z < 0x1_0000_0000 && 0 <= c <= 0x1_FFFF_FFFE
    requires 0 <= lw <= 0xFFFF_FFFE * w && (hw == 0 || hw == w) && col == z + lw + 0x1_0000_0000 * hw
    ensures var t := c + z + lw;
            && 0 <= t < 0x1_0000_0000_0000_0000 && Lo(t) == Lo(c + col) && Dn(t) + hw == Dn(c + col)
            && 0 <= Dn(t) + hw <= 0x1_FFFF_FFFE
  {}

  /** The carry left after a row goes to the next digit; what is left then is added to the
      digit above without looking for a further carry: k counts the wrap-arounds. */
  method AddToPair(z: Span, carry: DDigit) returns (ghost k: nat)
    requires z.Valid() && z.len == 2 && carry <= 0xFFFF_FFFF_0000_0000
    modifies z.buf
    ensures z.Value() + Shl(k, 2) == old(z.Value()) + carry
    ensures forall s: Span {:trigger s.Digits()} ::
      old(allocated(s)) && s.Valid() && s.Disjoint(z) ==> s.Digits() == old(s.Digits())
  {
    hide Val, Shl;
    PairValue(z);
    PairCarry(z.buf[z.off], z.buf[z.off + 1], carry);
    ShlUnit(2);
    k := 0;
    var c := carry;
    if c != 0 {
      c := c + z.buf[z.off];
      z.buf[z.off] := Lo(c);
      c := Dn(c);
      if c != 0 {
        k := Dn(z.buf[z.off + 1] as int + c);
        z.buf[z.off + 1] := Lo(z.buf[z.off + 1] as int + c);
      }
    }
    PairValue(z);
  }

  lemma PairCarry(z0: int, z1: int, c: int)
    ensures var d := z1 + Dn(z0 + c);
            Lo(z0 + c) + 0x1_0000_0000 * Lo(d) + Shl(Dn(d), 2) == z0 + 0x1_0000_0000 * z1 + c
  {
    var d := z1 + Dn(z0 + c);
    assert Shl(Dn(d), 2) == 0x1_0000_0000 * Shl(Dn(d), 1) == 0x1_0000_0000 * (0x1_0000_0000 * Dn(d));
  }

  lemma PairValue(z: Span)
    requires z.Valid() && z.len == 2
    ensures z.Value() == z.buf[z.off] as int + 0x1_0000_0000 * (z.buf[z.off + 1] as int)
  {
    assert z.Digits() == [z.buf[z.off], z.buf[z.off + 1]];
    ValPair(z.buf[z.off], z.buf[z.off + 1]);
  }

  method SqRowLow(z: Span, x: Span, v: int) returns (c: DDigit)
    requires z.Valid() && x.Valid() && 0 < x.len == z.len && z.Disjoint(x) && v == x.Digits()[0]
    modifies z.buf
    ensures c <= 0x1_FFFF_FFFE
    ensures z.Value() + Shl(c, z.len) == old(z.Value()) + 2 * v * old(x.Value()) - v * v
    ensures forall s: Span {:trigger s.Digits()} ::
      old(allocated(s)) && s.Valid() && s.Disjoint(z) ==> s.Digits() == old(s.Digits())
  {
    hide Val, Shl, Columns, Carry, DigitOf;
    ghost var zs, xs := z.Digits(), x.Digits();
    c := SqRowLoop(z, x, v);
    ColumnsSum(1, zs, 2 * v, xs, z.len);
    ColumnValue(z.Digits(), Columns(1, zs, 2 * v, xs, z.len), -(v * v));
  }

  /** A row, into the digits i and upwards of z; k counts what wrapped around at the top
      of z. */
  method SqRow(z: Span, i: nat, x: Span, v: int) returns (ghost k: nat)
    requires z.Valid() && x.Valid() && 0 < x.len && z.len == i + x.len + 2 && z.Disjoint(x) && v == x.Digits()[0]
    modifies z.buf
    ensures z.Value() + Shl(k, z.len) == old(z.Value()) + Shl(2 * v * old(x.Value()) - v * v, i)
    ensures forall s: Span {:trigger s.Digits()} ::
      old(allocated(s)) && s.Valid() && s.Disjoint(z) ==> s.Digits() == old(s.Digits())
  {
    hide Val, Shl, Span.Digits;
    var m := x.len;
    var z0, z1 := z.Sub(0, i), z.Sub(i, m + 2);
    var zl, zh := z1.Sub(0, m), z1.Sub(m, 2);
    ghost var row := 2 * v * x.Value() - v * v;
    ghost var a0, a1, al, ah := z0.Value(), z1.Value(), zl.Value(), zh.Value();
    SpanSplit(z, i);
    SpanSplit(z1, m);
    var c := SqRowLow(zl, x, v);
    k := AddToPair(zh, c);
    SpanSplit(z, i);
    SpanSplit(z1, m);
    JoinCarry(zl.Value(), zh.Value(), al + row, ah, c, k, m, 2);
    JoinCarry(a0, z1.Value(), a0 + Shl(row, i), a1, row, k, i, m + 2);
  }

  /** What squaring has accumulated after i rows: everything but the square of the part
      above digit i. */
  ghost function SqDone(xs: seq<Digit>, i: nat): int
    requires i <= |xs|
  {
    Val(xs) * Val(xs) - Shl(Val(xs[i..]) * Val(xs[i..]), 2 * i)
  }

  lemma SqStep(xs: seq<Digit>, i: nat)
    requires i < |xs|
    ensures var v: int := xs[i]; SqDone(xs, i + 1) == SqDone(xs, i) + Shl(2 * v * Val(xs[i..]) - v * v, 2 * i)
  {
    var v: int, h, h1 := xs[i], Val(xs[i..]), Val(xs[i + 1..]);
    assert h == v + 0x1_0000_0000 * h1 by { assert xs[i..][1..] == xs[i + 1..]; }
    hide Val, Shl;
    SquareSplit(h, v, h1);
    var b2 := 0x1_0000_0000 * (0x1_0000_0000 * (h1 * h1));
    ShlUp(0x1_0000_0000 * (h1 * h1), 2 * i);
    ShlUp(h1 * h1, 2 * i + 1);
    ShlAdd(b2, 2 * v * h - v * v, 2 * i);
  }

  lemma SquareSplit(h: int, v: int, h1: int)
    requires h == v + 0x1_0000_0000 * h1
    ensures h * h == 0x1_0000_0000 * (0x1_0000_0000 * (h1 * h1)) + (2 * v * h - v * v)
  {
    var g := 0x1_0000_0000 * h1;
    assert g * g == 0x1_0000_0000 * (0x1_0000_0000 * (h1 * h1)) by {
      MulAssoc(0x1_0000_0000, h1, g);
      MulAssoc(0x1_0000_0000, h1, h1);
    }
    assert (h - v) * (h - v) == h * h - 2 * v * h + v * v;
  }

  /** The accumulated part stays so small that the unchecked additions cannot wrap. */
  lemma SqDoneBound(xs: seq<Digit>, i: nat)
    requires i <= |xs|
    ensures 0 <= SqDone(xs, i) < Pow(i + |xs| + 1)
  {
    hide Val, Shl;
    var l, h, x := Val(xs[..i]), Shl(Val(xs[i..]), i), Val(xs);
    ValSplit(xs, i);
    ValBound(xs[..i]);
    ValBound(xs);
    assert SqDone(xs, i) == x * x - h * h by {
      var g := Val(xs[i..]);
      ShlScale(g, g, i);
      ShlScale(h, g, i);
      ShlShl(g * g, i, i);
      MulAdd2(g, g, h);
      assert Shl(g * h, i) == h * h;
    }
    ShlNonNegative(Val(xs[i..]), i);
    assert x * x - h * h == l * (x + h);
    ProductBound(l, x, i, |xs|);
    ProductBound(l, h, i, |xs|);
    assert l * (x + h) == l * x + l * h;
  }

  lemma {:induction false} ShlNonNegative(x: int, n: nat)
    requires 0 <= x
    ensures 0 <= Shl(x, n)
  {
    if n != 0 { ShlNonNegative(x, n - 1); }
  }

  /** The last row has no digits above it: v*v goes into two digits. */
  method SqLast(z: Span, v: int) returns (ghost k: nat)
    requires z.Valid() && z.len == 2 && 0 <= v < 0x1_0000_0000
    modifies z.buf
    ensures z.Value() + Shl(k, 2) == old(z.Value()) + v * v
    ensures forall s: Span {:trigger s.Digits()} ::
      old(allocated(s)) && s.Valid() && s.Disjoint(z) ==> s.Digits() == old(s.Digits())
  {
    DigitProduct(v, v);
    k := 0;
    if v != 0 {
      k := AddToPair(z, v * v);
    }
  }

  /** `bary_sq_fast`. */
  method SqFast(z: Span, x: Span)
    requires z.Valid() && x.Valid() && 2 * x.len <= z.len && z.Disjoint(x)
    modifies z.buf
    ensures z.Value() == old(x.Value()) * old(x.Value())
    ensures forall s: Span {:trigger s.Digits()} ::
      old(allocated(s)) && s.Valid() && s.Disjoint(z) ==> s.Digits() == old(s.Digits())
  {
    hide Val, Shl, Span.Digits, SqDone;
    ghost var xs := x.Digits();
    Fill(z, 0);
    ValZeros(z.Digits());
    if x.len == 0 {
      ValZeros(xs);
      return;
    }
    var n := x.len;
    SqStart(xs);
    var i := 0;
    while i < n - 1
      invariant i <= n - 1
      invariant z.Value() == SqDone(xs, i)
      invariant forall s: Span {:trigger s.Digits()} ::
        old(allocated(s)) && s.Valid() && s.Disjoint(z) ==> s.Digits() == old(s.Digits())
    {
      SqRows(z, x, i, xs);
      i := i + 1;
    }
    SqFinish(z, x, xs);
  }

  lemma SqStart(xs: seq<Digit>)
    ensures SqDone(xs, 0) == 0
    ensures SqDone(xs, |xs|) == Val(xs) * Val(xs)
  {
    assert xs[0..] == xs && xs[|xs|..] == [];
    ShlUnit(2 * |xs|);
  }

  /** The loop body for one i, with the test for a zero digit. */
  method SqRows(z: Span, x: Span, i: nat, ghost xs: seq<Digit>)
    requires z.Valid() && x.Valid() && 2 * x.len <= z.len && z.Disjoint(x) && i + 1 < x.len
    requires x.Digits() == xs && z.Value() == SqDone(xs, i)
    modifies z.buf
    ensures z.Value() == SqDone(xs, i + 1)
    ensures forall s: Span {:trigger s.Digits()} ::
      old(allocated(s)) && s.Valid() && s.Disjoint(z) ==> s.Digits() == old(s.Digits())
  {
    hide Val, Shl, Span.Digits, SqDone;
    SpanElements(x);
    SqStep(xs, i);
    var v: int := x.buf[x.off + i];
    if v == 0 {
      ShlUnit(2 * i);
      return;
    }
    var m := x.len - i;
    var t := x.Sub(i, m);
    SpanTails(x);
    assert t.Digits() == xs[i..];
    ghost var row := 2 * v * t.Value() - v * v;
    var p := i + x.len + 2;
    var zl, zh := z.Sub(0, p), z.Sub(p, z.len - p);
    SpanSplit(z, p);
    ghost var k := SqRow(zl, 2 * i, t, v);
    SpanSplit(z, p);
    SqDoneBound(xs, i + 1);
    SqNoWrap(z.Value(), SqDone(xs, i + 1), k, p);
  }

  lemma SqNoWrap(z: int, v: int, k: int, p: nat)
    requires 0 <= z && 0 <= k && z + Shl(k, p) == v < Pow(p)
    ensures k == 0 && z == v
  {
    ShlIsProduct(k, p);
    if k >= 1 { MulMonotone(1, k, Pow(p)); }
  }

  method SqFinish(z: Span, x: Span, ghost xs: seq<Digit>)
    requires z.Valid() && x.Valid() && 2 * x.len <= z.len && z.Disjoint(x) && 0 < x.len
    requires x.Digits() == xs && z.Value() == SqDone(xs, x.len - 1)
    modifies z.buf
    ensures z.Value() == Val(xs) * Val(xs)
    ensures forall s: Span {:trigger s.Digits()} ::
      old(allocated(s)) && s.Valid() && s.Disjoint(z) ==> s.Digits() == old(s.Digits())
  {
    hide Val, Shl, Span.Digits, SqDone;
    var i := x.len - 1;
    SpanElements(x);
    var v: int := x.buf[x.off + i];
    SqStart(xs);
    SqStep(xs, i);
    assert Val(xs[i..]) == v by { assert xs[i..] == [xs[i]]; ValSingle(xs[i]); }
    assert 2 * v * v - v * v == v * v;
    var z1, zh := z.Sub(0, 2 * i + 2), z.Sub(2 * i + 2, z.len - (2 * i + 2));
    var zl, zp := z1.Sub(0, 2 * i), z1.Sub(2 * i, 2);
    SpanSplit(z, 2 * i + 2);
    SpanSplit(z1, 2 * i);
    ghost var l, q := zl.Value(), zp.Value();
    ghost var k := SqLast(zp, v);
    SpanSplit(z, 2 * i + 2);
    SpanSplit(z1, 2 * i);
    JoinCarry(l, zp.Value(), l + Shl(v * v, 2 * i), q, v * v, k, 2 * i, 2);
    ValBound(xs);
    ProductBound(Val(xs), Val(xs), x.len, x.len);
    SqNoWrap(z.Value(), Val(xs) * Val(xs), k, 2 * i + 2);
  }
}

/** Addition, subtraction and complement of digit buffers, in place. */
module AddSub {
  import opened Digits

  /** The rest of `x` is copied and the buffer is filled up with zeros. */
  method CopyRest(z: Span, x: Span)
    requires z.Valid() && x.Valid() && x.len <= z.len && z.BehindOf(x)
    modifies z.buf
    ensures forall j :: 0 <= j < z.len ==> z.Digits()[j] == At(old(x.Digits()), j)
    ensures forall s: Span {:trigger s.Digits()} ::
      old(allocated(s)) && s.Valid() && s.Disjoint(z) ==> s.Digits() == old(s.Digits())
  {
    if x == z {
      return;
    }
    hide Span.Digits;
    ghost var xs := x.Digits();
    SpanElements(x);
    var k := 0;
    while k < x.len
      invariant k <= x.len
      invariant forall j ::
        0 <= j < z.buf.Length ==> z.buf[j] == if z.off <= j < z.off + k then At(xs, j - z.off) else old(z.buf[j])
    {
      z.buf[z.off + k] := x.buf[x.off + k];
      k := k + 1;
    }
    while k < z.len
      invariant x.len <= k <= z.len
      invariant forall j ::
        0 <= j < z.buf.Length ==> z.buf[j] == if z.off <= j < z.off + k then At(xs, j - z.off) else old(z.buf[j])
    {
      z.buf[z.off + k] := 0;
      k := k + 1;
    }
  }

  //----------------------------------------------------------------------------
  // bary_addc

  /** The three loops of `bary_addc` up to the point where no carry is left: the digits
      both operands have, those only v has, those beyond v. */
  method AddLoop(z: Span, u: Span, v: Span, carry: nat) returns (c: nat, i: nat)
    requires z.Valid() && u.Valid() && v.Valid() && carry <= 1
    requires u.len <= v.len <= z.len && z.BehindOf(u) && z.BehindOf(v)
    modifies z.buf
    ensures u.len <= i <= z.len && (c == 0 || i == z.len)
    ensures var cols := Columns(1, old(u.Digits()), 1, old(v.Digits()), z.len);
            c == Carry(cols, carry, i) <= 1 && Emitted(z, cols, carry, i)
  {
    hide Columns, Span.Digits, Carry, DigitOf;
    ghost var us, vs := u.Digits(), v.Digits();
    SpanElements(u);
    SpanElements(v);
    ghost var cols := Columns(1, us, 1, vs, z.len);
    CarryStart(cols, carry);
    var num: DDigit := carry;
    i := 0;
    while i < u.len || (i < z.len && num != 0)
      invariant i <= z.len && num == Carry(cols, carry, i) <= 1 && Emitted(z, cols, carry, i)
      decreases z.len - i
    {
      CarryStep(cols, carry, i);
      assert cols[i] == At(us, i) + At(vs, i);
      if i < u.len {
        num := num + u.buf[u.off + i];
      }
      if i < v.len {
        num := num + v.buf[v.off + i];
      }
      z.buf[z.off + i] := Lo(num);
      num := Dn(num);
      i := i + 1;
    }
    c := num;
  }

  method AddPrefix(z: Span, u: Span, v: Span, carry: nat) returns (c: nat, i: nat)
    requires z.Valid() && u.Valid() && v.Valid() && carry <= 1
    requires u.len <= v.len <= z.len && z.BehindOf(u) && z.BehindOf(v)
    modifies z.buf
    ensures u.len <= i <= z.len && (c == 0 || i == z.len) && c <= 1
    ensures z.Sub(0, i).Value() + Shl(c, i) == old(u.Value()) + Val(Low(old(v.Digits()), i)) + carry
    ensures forall s: Span {:trigger s.Digits()} ::
      old(allocated(s)) && s.Valid() && s.Disjoint(z.Sub(0, i)) ==> s.Digits() == old(s.Digits())
  {
    hide Val, Shl, Columns, Carry, DigitOf;
    ghost var us, vs := u.Digits(), v.Digits();
    c, i := AddLoop(z, u, v, carry);
    ColumnsSumTo(1, us, 1, vs, z.len, i);
    assert Low(us, i) == us;
    ColumnValue(z.Sub(0, i).Digits(), Columns(1, us, 1, vs, z.len), carry);
  }

  /** `bary_addc`: x + y + carry; the result is the carry out of z. */
  method Addc(z: Span, x: Span, y: Span, carry: nat) returns (c: nat)
    requires z.Valid() && x.Valid() && y.Valid() && carry <= 1
    requires x.len <= z.len && y.len <= z.len && z.BehindOf(x) && z.BehindOf(y)
    modifies z.buf
    ensures c <= 1 && z.Value() + Shl(c, z.len) == old(x.Value() + y.Value()) + carry
    ensures forall s: Span {:trigger s.Digits()} ::
      old(allocated(s)) && s.Valid() && s.Disjoint(z) ==> s.Digits() == old(s.Digits())
  {
    hide Val, Shl, Span.Digits;
    var u, v := x, y;
    if x.len > y.len {
      u, v := y, x;
    }
    ghost var vs := v.Digits();
    SpanTails(v);
    var i;
    c, i := AddPrefix(z, u, v, carry);
    ShlUnit(z.len);
    if c == 0 {
      var k := if i <= v.len then i else v.len;
      var hi, t := z.Sub(i, z.len - i), v.Sub(k, v.len - k);
      assert t.Digits() == vs[k..];
      CopyRest(hi, t);
      CopyValue(hi.Digits(), vs[k..]);
      ValLowSplit(vs, i);
      SpanSplit(z, i);
      ShlUnit(i);
    } else {
      assert z.Sub(0, i) == z && Low(vs, i) == vs;
    }
  }

  method Add(z: Span, x: Span, y: Span) returns (c: nat)
    requires z.Valid() && x.Valid() && y.Valid()
    requires x.len <= z.len && y.len <= z.len && z.BehindOf(x) && z.BehindOf(y)
    modifies z.buf
    ensures c <= 1 && z.Value() + Shl(c, z.len) == old(x.Value() + y.Value())
    ensures forall s: Span {:trigger s.Digits()} ::
      old(allocated(s)) && s.Valid() && s.Disjoint(z) ==> s.Digits() == old(s.Digits())
  {
    c := Addc(z, x, y, 0);
  }

  //----------------------------------------------------------------------------
  // bary_subb

  /** The loops of `bary_subb`: all digits of y, and those of x while a borrow is left. */
  method SubLoop(z: Span, x: Span, y: Span, borrow: int) returns (num: SDigit, i: nat)
    requires z.Valid() && x.Valid() && y.Valid() && 0 <= borrow <= 1
    requires x.len <= z.len && y.len <= z.len && z.BehindOf(x) && z.BehindOf(y)
    modifies z.buf
    ensures y.len <= i <= z.len && (num == 0 || x.len <= i)
    ensures var cols := Columns(1, old(x.Digits()), -1, old(y.Digits()), z.len);
            num == Carry(cols, -borrow, i) && -1 <= num <= 0 && Emitted(z, cols, -borrow, i)
  {
    hide Columns, Span.Digits, Carry, DigitOf;
    ghost var xs, ys := x.Digits(), y.Digits();
    SpanElements(x);
    SpanElements(y);
    ghost var cols := Columns(1, xs, -1, ys, z.len);
    CarryStart(cols, -borrow);
    num := -borrow;
    i := 0;
    while i < y.len || (i < x.len && num != 0)
      invariant i <= z.len && num == Carry(cols, -borrow, i) && -1 <= num <= 0 && Emitted(z, cols, -borrow, i)
      decreases z.len - i
    {
      CarryStep(cols, -borrow, i);
      assert cols[i] == At(xs, i) - At(ys, i);
      if i < x.len {
        num := num + x.buf[x.off + i];
      }
      if i < y.len {
        num := num - y.buf[y.off + i];
      }
      z.buf[z.off + i] := Lo(num);
      num := Dn(num);
      i := i + 1;
    }
  }

  method SubPrefix(z: Span, x: Span, y: Span, borrow: int) returns (num: SDigit, i: nat)
    requires z.Valid() && x.Valid() && y.Valid() && 0 <= borrow <= 1
    requires x.len <= z.len && y.len <= z.len && z.BehindOf(x) && z.BehindOf(y)
    modifies z.buf
    ensures y.len <= i <= z.len && (num == 0 || x.len <= i) && -1 <= num <= 0
    ensures z.Sub(0, i).Value() + Shl(num, i) == Val(Low(old(x.Digits()), i)) - old(y.Value()) - borrow
    ensures forall s: Span {:trigger s.Digits()} ::
      old(allocated(s)) && s.Valid() && s.Disjoint(z.Sub(0, i)) ==> s.Digits() == old(s.Digits())
  {
    hide Val, Shl, Columns, Carry, DigitOf;
    ghost var xs, ys := x.Digits(), y.Digits();
    num, i := SubLoop(z, x, y, borrow);
    ColumnsSumTo(1, xs, -1, ys, z.len, i);
    assert Low(ys, i) == ys;
    ColumnValue(z.Sub(0, i).Digits(), Columns(1, xs, -1, ys, z.len), -borrow);
  }

  method Fill(z: Span, d: Digit)
    requires z.Valid()
    modifies z.buf
    ensures forall j :: 0 <= j < z.len ==> z.Digits()[j] == d
    ensures forall s: Span {:trigger s.Digits()} ::
      old(allocated(s)) && s.Valid() && s.Disjoint(z) ==> s.Digits() == old(s.Digits())
  {
    var i := 0;
    while i < z.len
      invariant i <= z.len
      invariant forall j :: 0 <= j < z.buf.Length ==> z.buf[j] == if z.off <= j < z.off + i then d else old(z.buf[j])
    {
      z.buf[z.off + i] := d;
      i := i + 1;
    }
  }

  /** `bary_subb`: x - y - borrow; the result is the borrow out of z. */
  method Subb(z: Span, x: Span, y: Span, borrow: int) returns (c: nat)
    requires z.Valid() && x.Valid() && y.Valid() && 0 <= borrow <= 1
    requires x.len <= z.len && y.len <= z.len && z.BehindOf(x) && z.BehindOf(y)
    modifies z.buf
    ensures c <= 1 && z.Value() - Shl(c, z.len) == old(x.Value() - y.Value()) - borrow
    ensures forall s: Span {:trigger s.Digits()} ::
      old(allocated(s)) && s.Valid() && s.Disjoint(z) ==> s.Digits() == old(s.Digits())
  {
    hide Val, Shl, Span.Digits;
    ghost var xs := x.Digits();
    SpanTails(x);
    var num, i := SubPrefix(z, x, y, borrow);
    var hi := z.Sub(i, z.len - i);
    if num == 0 {
      var k := if i <= x.len then i else x.len;
      var t := x.Sub(k, x.len - k);
      assert t.Digits() == xs[k..];
      CopyRest(hi, t);
      CopyValue(hi.Digits(), xs[k..]);
      ValLowSplit(xs, i);
      c := 0;
    } else {
      Fill(hi, BDIGMAX);
      ValMax(hi.Digits());
      assert Low(xs, i) == xs;
      ShlShl(1, z.len - i, i);
      ShlUnit(z.len - i);
      ShlAdd(Pow(z.len - i), -1, i);
      c := 1;
    }
    SpanSplit(z, i);
    ShlNeg(1, i);
    ShlUnit(i);
    ShlUnit(z.len);
  }

  method Sub(z: Span, x: Span, y: Span) returns (c: nat)
    requires z.Valid() && x.Valid() && y.Valid()
    requires x.len <= z.len && y.len <= z.len && z.BehindOf(x) && z.BehindOf(y)
    modifies z.buf
    ensures c <= 1 && z.Value() - Shl(c, z.len) == old(x.Value() - y.Value())
    ensures forall s: Span {:trigger s.Digits()} ::
      old(allocated(s)) && s.Valid() && s.Disjoint(z) ==> s.Digits() == old(s.Digits())
  {
    c := Subb(z, x, y, 0);
  }

  method SubOne(z: Span) returns (c: nat)
    requires z.Valid()
    modifies z.buf
    ensures c <= 1 && z.Value() - Shl(c, z.len) == old(z.Value()) - 1
    ensures forall s: Span {:trigger s.Digits()} ::
      old(allocated(s)) && s.Valid() && s.Disjoint(z) ==> s.Digits() == old(s.Digits())
  {
    c := Subb(z, z, z.Sub(0, 0), 1);
  }

  //----------------------------------------------------------------------------
  // bary_add_one, bary_2comp

  method AddOneLoop(z: Span) returns (c: nat, i: nat)
    requires z.Valid()
    modifies z.buf
    ensures i <= z.len && c <= 1 && (c == 0 || i == z.len)
    ensures var cols := Columns(1, old(z.Digits()), 0, [], z.len);
            c == Carry(cols, 1, i) && Emitted(z, cols, 1, i)
  {
    hide Columns, Span.Digits;
    ghost var zs := z.Digits();
    SpanElements(z);
    ghost var cols := Columns(1, zs, 0, [], z.len);
    i := 0;
    while i < z.len
      invariant i <= z.len && Carry(cols, 1, i) == 1 && Emitted(z, cols, 1, i)
    {
      z.buf[z.off + i] := Lo(z.buf[z.off + i] as int + 1);
      i := i + 1;
      if z.buf[z.off + i - 1] != 0 {
        return 0, i;
      }
    }
    c := 1;
  }

  /** `bary_add_one`. */
  method AddOne(z: Span) returns (c: nat)
    requires z.Valid()
    modifies z.buf
    ensures c <= 1 && z.Value() + Shl(c, z.len) == old(z.Value()) + 1
    ensures forall s: Span {:trigger s.Digits()} ::
      old(allocated(s)) && s.Valid() && s.Disjoint(z) ==> s.Digits() == old(s.Digits())
  {
    hide Val, Shl, Columns, Carry, DigitOf;
    ghost var zs := z.Digits();
    var i;
    c, i := AddOneLoop(z);
    ColumnsSumTo(1, zs, 0, [], z.len, i);
    ColumnValue(z.Sub(0, i).Digits(), Columns(1, zs, 0, [], z.len), 1);
    SpanSub(z, 0, i);
    KeepRest(z.Digits(), zs, i, c, 1 + Val(zs[..i]));
  }

  /** A change of the low i digits leaves the rest in place. */
  lemma KeepRest(zd: seq<Digit>, zs: seq<Digit>, i: nat, c: int, low: int)
    requires i <= |zd| == |zs| && (forall j :: i <= j < |zd| ==> zd[j] == zs[j]) && (c == 0 || i == |zd|)
    requires Val(zd[..i]) + Shl(c, i) == low
    ensures Val(zd) + Shl(c, |zd|) == low + Val(zs) - Val(zs[..i])
  {
    assert zd[i..] == zs[i..];
    ValSplit(zd, i);
    ValSplit(zs, i);
    ShlUnit(i);
    ShlUnit(|zd|);
  }

  method TwoCompLoop(z: Span) returns (zero: bool)
    requires z.Valid()
    modifies z.buf
    ensures zero <==> old(z.Value()) == 0
    ensures Emitted(z, Columns(-1, old(z.Digits()), 0, [], z.len), 0, z.len)
  {
    hide Columns, Span.Digits, Shl, Carry, DigitOf;
    ghost var zs := z.Digits();
    SpanElements(z);
    ghost var cols := Columns(-1, zs, 0, [], z.len);
    CarryStart(cols, 0);
    var i := 0;
    while i < z.len && z.buf[z.off + i] == 0
      invariant i <= z.len && Carry(cols, 0, i) == 0 && Emitted(z, cols, 0, i)
      invariant z.buf[..] == old(z.buf[..])
      invariant forall j :: 0 <= j < i ==> zs[j] == 0
    {
      CarryStep(cols, 0, i);
      i := i + 1;
    }
    if i == z.len {
      ValZeros(zs);
      return true;
    }
    if old(z.Value()) == 0 { ValZeroDigits(zs); }
    CarryStep(cols, 0, i);
    z.buf[z.off + i] := Lo((0xFFFF_FFFF - z.buf[z.off + i]) + 1);
    i := i + 1;
    while i < z.len
      invariant i <= z.len && Carry(cols, 0, i) == -1 && Emitted(z, cols, 0, i)
    {
      CarryStep(cols, 0, i);
      z.buf[z.off + i] := 0xFFFF_FFFF - z.buf[z.off + i];
      i := i + 1;
    }
    zero := false;
  }

  /** `bary_2comp`: the two's complement, and whether the buffer was zero. */
  method TwoComp(z: Span) returns (zero: bool)
    requires z.Valid()
    modifies z.buf
    ensures zero <==> old(z.Value()) == 0
    ensures z.Value() == if zero then 0 else Pow(z.len) - old(z.Value())
    ensures forall s: Span {:trigger s.Digits()} ::
      old(allocated(s)) && s.Valid() && s.Disjoint(z) ==> s.Digits() == old(s.Digits())
  {
    hide Val, Shl, Columns, Carry, DigitOf;
    ghost var zs := z.Digits();
    zero := TwoCompLoop(z);
    ghost var cols := Columns(-1, zs, 0, [], z.len);
    ColumnsSum(-1, zs, 0, [], z.len);
    ColumnValue(z.Digits(), cols, 0);
    SpanBound(z);
    ValBound(zs);
    ShlIsProduct(Carry(cols, 0, z.len), z.len);
    ComplementUnique(z.Value(), Val(zs), Carry(cols, 0, z.len), Pow(z.len));
  }

  lemma ComplementUnique(z: int, v: int, c: int, p: int)
    requires 0 <= z < p && 0 <= v < p && z + c * p == -v
    ensures z == if v == 0 then 0 else p - v
  {
    if v == 0 {
      CongruentEqual(z, 0, -c, p);
    } else {
      CongruentEqual(z, p - v, -c - 1, p);
    }
  }
}

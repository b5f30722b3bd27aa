/**
 * Writing a number in a base: `big2str_generic`, by division in halves.
 */
module RadixWrite {
  import opened Bits
  import opened Digits
  import opened AddSub
  import opened Shift
  import opened Division
  import opened Multiply
  import Bitwise
  import opened Toom3Steps
  import opened KaratsubaSteps
  import opened RadixTable
  import opened RadixText

  //----------------------------------------------------------------------------
  // Powers of the base

  /** `maxpow_in_bdigit_dbl`: the largest power that fits a double digit, from the table. */
  method MaxPow(base: nat) returns (p: DDigit, n: nat)
    requires 2 <= base <= 36
    ensures n == MaxPow64(base).0 > 0 && p == Power(base, n) && 0x1_0000_0000 <= p
            && p as int * base > 0xFFFF_FFFF_FFFF_FFFF
  {
    Entries(base);
    hide Power;
    var (e, q) := MaxPow64(base);
    p, n := q, e;
  }

  /** The digits of the power at a level, and the power. */
  function Chars(nd: nat, level: nat): nat { nd * Pow2(level) }

  function LevelPower(base: nat, nd: nat, level: nat): nat { Power(base, Chars(nd, level)) }

  lemma LevelUp(base: nat, nd: nat, level: nat)
    ensures Chars(nd, level + 1) == 2 * Chars(nd, level)
    ensures LevelPower(base, nd, level + 1) == LevelPower(base, nd, level) * LevelPower(base, nd, level)
  {
    assert nd * (2 * Pow2(level)) == 2 * (nd * Pow2(level));
    PowerAdd(base, Chars(nd, level), Chars(nd, level));
  }

  /** Without leading zeros. */
  ghost predicate Full(s: Span)
    requires s.Valid()
    reads s.buf
  {
    s.len == 0 || s.Digits()[s.len - 1] != 0
  }

  method Shortened(z: Span) returns (t: Span)
    requires z.Valid()
    ensures t.Valid() && t.len <= z.len && t == z.Sub(0, t.len) && Full(t) && t.Value() == z.Value()
  {
    hide Val, Span.Digits;
    var n := Trunc(z);
    t := z.Sub(0, n);
    ValDropZeros(z.Digits(), n);
    SpanSub(z, 0, n);
    SpanElements(z);
    SpanElements(t);
  }

  lemma FullBounds(s: Span)
    requires s.Valid() && Full(s) && s.len > 0
    ensures Pow(s.len - 1) <= s.Value() < Pow(s.len)
  {
    hide Val, Span.Digits, Shl;
    var m, ds := s.len - 1, s.Digits();
    SpanBound(s);
    ValSplit(ds, m);
    assert ds[m..] == [ds[m]];
    ValSingle(ds[m]);
    ShlMonotone(1, ds[m], m);
    ShlUnit(m);
  }

  lemma {:induction false} ShlMonotone(x: int, y: int, n: nat)
    requires x <= y
    ensures Shl(x, n) <= Shl(y, n)
    decreases n
  {
    if n > 0 { ShlMonotone(x, y, n - 1); }
  }

  /** A number of more digits is larger. */
  lemma LongerIsLarger(x: Span, y: Span)
    requires x.Valid() && y.Valid() && Full(y) && x.len < y.len
    ensures x.Value() < y.Value()
  {
    hide Val, Span.Digits, Pow;
    SpanBound(x);
    FullBounds(y);
    PowMonotone(x.len, y.len - 1);
  }

  /** The comparison in `big2str_karatsuba`, with `bary_cmp`. */
  method Less(x: Span, y: Span) returns (less: bool)
    requires x.Valid() && y.Valid() && Full(x) && Full(y)
    ensures less <==> x.Value() < y.Value()
  {
    hide Val, Span.Digits, Pow, Shl;
    if x.len < y.len {
      LongerIsLarger(x, y);
      return true;
    }
    if x.len > y.len {
      LongerIsLarger(y, x);
      return false;
    }
    ghost var xs, ys := x.Digits(), y.Digits();
    SpanElements(x);
    SpanElements(y);
    var n := x.len;
    while 0 < n && x.buf[x.off + n - 1] == y.buf[y.off + n - 1]
      invariant 0 <= n <= x.len && xs[n..] == ys[n..]
    {
      n := n - 1;
      assert xs[n..] == [xs[n]] + xs[n + 1..] && ys[n..] == [ys[n]] + ys[n + 1..];
    }
    if n == 0 {
      assert xs[0..] == xs && ys[0..] == ys;
      return false;
    }
    less := x.buf[x.off + n - 1] < y.buf[y.off + n - 1];
    Decided(xs, ys, n);
  }

  lemma Decided(xs: seq<Digit>, ys: seq<Digit>, n: nat)
    requires 0 < n <= |xs| == |ys| && xs[n..] == ys[n..] && xs[n - 1] != ys[n - 1]
    ensures Val(xs) < Val(ys) <==> xs[n - 1] < ys[n - 1]
  {
    hide Val, Shl;
    ValSplit(xs, n);
    ValSplit(ys, n);
    if xs[n - 1] < ys[n - 1] {
      TopLess(xs[..n], ys[..n]);
    } else {
      TopLess(ys[..n], xs[..n]);
    }
  }

  /** `MAX_BASE36_POWER_TABLE_ENTRIES`. */
  const POWER_ENTRIES: nat := 65

  /** `power_cache_get_power`, computing the power; a level beyond the table is a bug. */
  method GetPower(base: nat, nd: nat, p: DDigit, level: nat) returns (s: Span)
    requires base >= 2 && p == Power(base, nd) && 0x1_0000_0000 <= p && level < POWER_ENTRIES
    ensures fresh(s.buf) && s.Valid() && s.len >= 2 && Full(s) && s.Value() == LevelPower(base, nd, level)
    decreases level
  {
    hide Val, Power, Pow, Shl, LevelPower;
    if level == 0 {
      var a := new Digit[2];
      a[0], a[1] := Lo(p), Dn(p);
      s := Span(a, 0, 2);
      assert s.Digits() == [a[0], a[1]];
      ValPair(a[0], a[1]);
      LevelZero(base, nd);
    } else {
      var t := GetPower(base, nd, p, level - 1);
      s := NextPower(base, nd, level - 1, t);
    }
  }

  /** The power of the next level is the square. */
  method NextPower(ghost base: nat, ghost nd: nat, ghost level: nat, t: Span) returns (s: Span)
    requires t.Valid() && t.len >= 2 && Full(t) && t.Value() == LevelPower(base, nd, level)
    ensures fresh(s.buf) && s.Valid() && s.len >= 2 && Full(s) && s.Value() == LevelPower(base, nd, level + 1)
  {
    hide Val, Pow, Shl, LevelPower, Span.Digits;
    var z := new Digit[2 * t.len];
    Mul(Span(z, 0, 2 * t.len), t, t);
    s := Shortened(Span(z, 0, 2 * t.len));
    LevelUp(base, nd, level);
    SquareLong(t, s);
  }

  /** A power with the number of its digits; a power that is kept is never changed. */
  ghost predicate Kept(base: nat, level: nat, ds: seq<Digit>, n: nat)
  {
    && 2 <= base <= 36 && level < POWER_ENTRIES && |ds| >= 2 && ds[|ds| - 1] != 0
    && Val(ds) == LevelPower(base, MaxPow64(base).0, level) && n == Chars(MaxPow64(base).0, level)
  }

  /** `base36_power_cache` and `base36_numdigits_cache`. */
  class PowerCache {
    var powers: map<(nat, nat), (seq<Digit>, nat)>

    /** What is kept is right. */
    ghost predicate Valid()
      reads this
    {
      forall k :: k in powers ==> Kept(k.0, k.1, powers[k].0, powers[k].1)
    }

    constructor ()
      ensures Valid() && powers == map[]
    {
      powers := map[];
    }

    /** `power_cache_get_power`, keeping every power it comes to. */
    method Get(base: nat, level: nat) returns (ds: seq<Digit>, n: nat)
      requires Valid() && 2 <= base <= 36 && level < POWER_ENTRIES
      modifies this
      ensures Valid() && Kept(base, level, ds, n) && (base, level) in powers && powers[(base, level)] == (ds, n)
      ensures forall k :: k in old(powers) ==> k in powers && powers[k] == old(powers)[k]
      decreases level
    {
      hide Kept;
      if (base, level) !in powers {
        if level == 0 {
          ds, n := FirstEntry(base);
        } else {
          ds, n := Get(base, level - 1);
          ds, n := NextEntry(base, level - 1, ds, n);
        }
        powers := powers[(base, level) := (ds, n)];
      }
      ds, n := powers[(base, level)].0, powers[(base, level)].1;
    }
  }

  method FirstEntry(base: nat) returns (ds: seq<Digit>, n: nat)
    requires 2 <= base <= 36
    ensures Kept(base, 0, ds, n)
  {
    hide Val, Power, LevelPower, Chars, MaxPow64;
    var p;
    p, n := MaxPow(base);
    var s := GetPower(base, n, p, 0);
    ds := s.buf[s.off..s.off + s.len];
    LevelZeroChars(n);
  }

  method NextEntry(base: nat, ghost level: nat, ts: seq<Digit>, m: nat) returns (ds: seq<Digit>, n: nat)
    requires Kept(base, level, ts, m) && level + 1 < POWER_ENTRIES
    ensures Kept(base, level + 1, ds, n)
  {
    hide Val, Power, LevelPower, Chars, MaxPow64;
    ghost var nd := MaxPow64(base).0;
    var a := new Digit[|ts|](i requires 0 <= i < |ts| => ts[i]);
    var t := Span(a, 0, |ts|);
    assert t.Digits() == ts;
    var s := NextPower(base, nd, level, t);
    ds := s.buf[s.off..s.off + s.len];
    n := 2 * m;
    LevelUp(base, nd, level);
  }

  lemma LevelZero(base: nat, nd: nat)
    ensures LevelPower(base, nd, 0) == Power(base, nd)
  {
    assert nd * 1 == nd;
  }

  lemma SquareLong(t: Span, s: Span)
    requires t.Valid() && s.Valid() && t.len >= 2 && Full(t) && s.Value() == t.Value() * t.Value()
    ensures s.len >= 2 && 2 * t.len - 1 <= s.len
  {
    hide Val, Span.Digits, Pow;
    FullBounds(t);
    SpanBound(s);
    var m := t.len - 1;
    PowAdd(m, m);
    MulMonotone(Pow(m), t.Value(), Pow(m));
    MulMonotone(Pow(m), t.Value(), t.Value());
    if s.len <= 2 * m { PowMonotone(s.len, 2 * m); }
  }

  //----------------------------------------------------------------------------
  // Division within the work area

  /** The dividend, one digit longer, and the divisor, both scaled so that the divisor's high
      bit is set; the scaled divisor goes behind the dividend. */
  method Scale(w: Span, xn: nat, b: Span, shift: nat) returns (t: Span)
    requires w.Valid() && b.Valid() && w.buf != b.buf && 2 <= b.len && Full(b) && shift == Nlz(b.Digits()[b.len - 1])
             && shift < 32
    requires xn + 1 + b.len <= w.len
    modifies w.buf
    ensures t.Valid() && t.len == b.len && t.Disjoint(w.Sub(0, xn + 1)) && w.Sub(0, xn + 1).Disjoint(t)
    ensures t.Value() == Pow2(shift) * old(b.Value())
            && w.Sub(0, xn + 1).Value() == Pow2(shift) * old(w.Sub(0, xn).Value())
    ensures w.Sub(0, xn + 1).Digits()[xn] < 0x8000_0000 <= t.Digits()[t.len - 1]
    ensures forall s: Span {:trigger s.Digits()} ::
      old(allocated(s)) && s.Valid() && s.Disjoint(w) ==> s.Digits() == old(s.Digits())
  {
    hide Val, Span.Digits, Shl, Pow2, Nlz, Pow;
    var z, zt, zz := w.Sub(0, xn), w.Sub(xn, 1), w.Sub(0, xn + 1);
    ghost var ys := b.Digits();
    ShiftFactor(shift);
    Pow2Values();
    Pow2Monotone(shift, 31);
    if shift == 0 {
      t := b;
      NoShift(ys);
      Fill(zt, 0);
    } else {
      t := w.Sub(xn + 1, b.len);
      var d := SmallLshift(t, b, shift);
      NormalizedDivisor(ys, t.Digits(), d, Pow2(shift));
      ShlUnit(t.len);
      var c := SmallLshift(z, z, shift);
      Fill(zt, c);
    }
    FilledDigit(zt, zt.Digits()[0]);
    SpanSplit(zz, xn);
    assert zz.Sub(0, xn) == z && zz.Sub(xn, 1) == zt;
    ShlUnit(xn);
  }

  /** Quotient and remainder by a power, in the place of the dividend. */
  method DivideInPlace(w: Span, xn: nat, b: Span)
    requires w.Valid() && b.Valid() && w.buf != b.buf && 2 <= b.len <= xn && Full(b) && xn + 1 + b.len <= w.len
    modifies w.buf
    ensures b.Value() > 0
    ensures w.Sub(0, b.len).Value() == old(w.Sub(0, xn).Value()) % b.Value()
    ensures w.Sub(b.len, xn + 1 - b.len).Value() == old(w.Sub(0, xn).Value()) / b.Value()
    ensures forall s: Span {:trigger s.Digits()} ::
      old(allocated(s)) && s.Valid() && s.Disjoint(w) ==> s.Digits() == old(s.Digits())
  {
    hide Val, Span.Digits, Shl, Pow2, Nlz, Pow;
    ghost var x, y := w.Sub(0, xn).Value(), b.Value();
    PositiveTop(b.Digits());
    TopOf(b);
    NlzShift(b.Digits()[b.len - 1]);
    var shift: nat := Nlz(b.buf[b.off + b.len - 1]);
    var t := Scale(w, xn, b, shift);
    var zz, r := w.Sub(0, xn + 1), w.Sub(0, b.len);
    Restoring(zz, t);
    assert zz.Sub(0, t.len) == r && zz.Sub(t.len, zz.len - t.len) == w.Sub(b.len, xn + 1 - b.len);
    ghost var q, r1 := w.Sub(b.len, xn + 1 - b.len).Value(), r.Value();
    ghost var d := r.Digits()[0];
    if shift > 0 {
      SmallRshift(r, r, shift, 0);
    }
    Unscaled(x, y, shift, q, r1, r.Value(), d, r.len);
  }

  lemma TopOf(b: Span)
    requires b.Valid() && b.len > 0
    ensures b.Digits()[b.len - 1] == b.buf[b.off + b.len - 1]
  {}

  lemma Unscaled(x: nat, y: nat, shift: nat, q: nat, r1: nat, r: nat, d: Digit, n: nat)
    requires y > 0 && Pow2(shift) * x == q * (Pow2(shift) * y) + r1 && r1 < Pow2(shift) * y
    requires if shift > 0 then r * Pow2(shift) + d % Pow2(shift) == r1 + Shl(0 % Pow2(shift), n) else r == r1
    ensures q == x / y && r == x % y
  {
    hide Pow2, Shl;
    var p := Pow2(shift);
    if shift > 0 {
      ZeroMod(p);
      ShlUnit(n);
      ScaledDivision(x, y, p, q, r1, r, d % p);
    } else {
      PowZero();
      ScaledDivision(x, y, 1, q, r1, r, 0);
    }
  }

  //----------------------------------------------------------------------------
  // The text

  /** `struct big2str_struct`: nothing is allocated before the first character is known. */
  class Output {
    var started: bool
    var text: Text
    /** How many characters were allocated. */
    var room: nat

    constructor ()
      ensures !started && text == [] && room == 0
    {
      started, text, room := false, [], 0;
    }

    /** `big2str_alloc`, and the first characters. */
    method Start(t: Text, tail: nat)
      requires !started
      modifies this
      ensures started && text == t && room == |t| + tail
    {
      started, text, room := true, t, |t| + tail;
    }

    method Put(t: Text)
      requires started && |text| + |t| <= room
      modifies this`text
      ensures text == old(text) + t
    {
      text := text + t;
    }
  }

  /** The digits of a double digit from the last one on, until nothing is left. */
  method FirstDigits(base: nat, num: DDigit) returns (t: Text)
    requires 2 <= base
    ensures t == Rep(base, num)
  {
    hide Rep, Quo, Rem;
    var n: nat := num;
    t := [];
    while n > 0
      invariant Rep(base, n) + t == Rep(base, num)
      decreases n
    {
      RepStep(base, n);
      t := [Rem(n, base)] + t;
      n := Quo(n, base);
    }
    RepNothing(base);
  }

  lemma RepStep(base: nat, n: nat)
    requires base >= 2 && n > 0
    ensures Rep(base, n) == Rep(base, Quo(n, base)) + [Rem(n, base)]
  {}

  lemma RepNothing(base: nat)
    requires base >= 2
    ensures Rep(base, 0) == []
  {}

  /** As many digits as asked for. */
  method AllDigits(base: nat, num: DDigit, nd: nat) returns (t: Text)
    requires 2 <= base
    ensures t == Padded(base, num, nd)
  {
    hide Quo, Rem;
    var n: nat, j := num, nd;
    t := [];
    while j > 0
      invariant 0 <= j <= nd && Padded(base, n, j) + t == Padded(base, num, nd)
    {
      t := [Rem(n, base)] + t;
      n := Quo(n, base);
      j := j - 1;
    }
  }

  /** What printing x does: exactly n characters behind others, or the canonical text. */
  twostate predicate Printed(o: Output, base: nat, x: nat, n: nat)
    requires base >= 2
    reads o
  {
    && o.started == (old(o.started) || x > 0)
    && o.text == old(o.text) + if old(o.started) then Padded(base, x, n) else Rep(base, x)
  }

  /** There is room for n characters, and t more after them. */
  ghost predicate Fits(o: Output, n: nat, t: nat)
    reads o
  {
    if o.started then |o.text| + n + t == o.room else o.text == []
  }

  /** `bary2bdigitdbl`. */
  method DoubleDigit(x: Span) returns (num: DDigit)
    requires x.Valid() && x.len <= 2
    ensures num == x.Value()
  {
    hide Val, Span.Digits, Pow;
    if x.len == 2 {
      num := x.buf[x.off] as int + 0x1_0000_0000 * (x.buf[x.off + 1] as int);
      MulKernel.PairValue(x);
    } else if x.len == 1 {
      OneDigit(x);
      num := x.buf[x.off];
    } else {
      ValEmpty(x.Digits());
      num := 0;
    }
  }

  /** `big2str_2bdigits`. */
  method Write2(o: Output, base: nat, nd: nat, x: Span, tail: nat)
    requires x.Valid() && x.len <= 2 && 2 <= base && Fits(o, nd, tail)
    modifies o
    ensures Printed(o, base, x.Value(), nd) && Fits(o, 0, tail)
  {
    hide Val, Span.Digits, Rep, Padded;
    var num := DoubleDigit(x);
    if !o.started {
      RepNothing(base);
      if num == 0 { return; }
      var t := FirstDigits(base, num);
      o.Start(t, tail);
    } else {
      var t := AllDigits(base, num, nd);
      o.Put(t);
    }
  }

  //----------------------------------------------------------------------------
  // Halves

  predicate Based(base: nat, nd: nat, p: DDigit) { 2 <= base && p == Power(base, nd) && 0x1_0000_0000 <= p }

  lemma {:induction false} LevelMonotone(base: nat, nd: nat, p: DDigit, l: nat, m: nat)
    requires Based(base, nd, p) && l <= m
    ensures 0 < LevelPower(base, nd, l) <= LevelPower(base, nd, m) && Chars(nd, l) <= Chars(nd, m)
    decreases m - l
  {
    hide LevelPower;
    PowerPositive(base, Chars(nd, l));
    assert LevelPower(base, nd, l) > 0 by { LevelPositive(base, nd, l); }
    if l < m {
      LevelUp(base, nd, l);
      LevelPositive(base, nd, l);
      MulMonotone(1, LevelPower(base, nd, l), LevelPower(base, nd, l));
      LevelMonotone(base, nd, p, l + 1, m);
    }
  }

  lemma LevelPositive(base: nat, nd: nat, l: nat)
    requires 2 <= base
    ensures LevelPower(base, nd, l) > 0
  {
    PowerPositive(base, Chars(nd, l));
  }

  /** The highest level whose power the number reaches, or 0. */
  method FindLevel(base: nat, nd: nat, p: DDigit, x: Span, level: nat) returns (lower: nat, b: Span, less: bool)
    requires Based(base, nd, p) && x.Valid() && Full(x) && 0 < level <= POWER_ENTRIES
             && x.Value() < LevelPower(base, nd, level)
    ensures lower < level && fresh(b.buf) && b.Valid() && b.len >= 2 && Full(b)
            && b.Value() == LevelPower(base, nd, lower)
    ensures (less <==> x.Value() < b.Value()) && (less ==> lower == 0) && x.Value() < LevelPower(base, nd, lower + 1)
  {
    hide Val, Span.Digits, LevelPower, Power;
    lower := level - 1;
    b := GetPower(base, nd, p, lower);
    less := Less(x, b);
    while 0 < lower && less
      invariant lower < level && fresh(b.buf) && b.Valid() && b.len >= 2 && Full(b)
                && b.Value() == LevelPower(base, nd, lower)
      invariant (less <==> x.Value() < b.Value()) && x.Value() < LevelPower(base, nd, lower + 1)
      decreases lower
    {
      lower := lower - 1;
      b := GetPower(base, nd, p, lower);
      less := Less(x, b);
    }
  }

  lemma ShortFull(s: Span, m: nat)
    requires s.Valid() && Full(s) && s.Value() < Pow(m)
    ensures s.len <= m && (s.Value() == 0 <==> s.len == 0)
  {
    hide Val, Span.Digits, Pow;
    ValEmpty(s.Digits());
    if s.len > 0 {
      FullBounds(s);
      PowPositive(s.len - 1);
      if m <= s.len - 1 { PowMonotone(m, s.len - 1); }
    }
  }

  lemma PowPositive(n: nat)
    ensures Pow(n) > 0
  {}

  /** What is needed to print the first xn digits of a work area at a level: that the number
      is below the power there, and room for the divisions. */
  ghost predicate Printable(base: nat, nd: nat, w: Span, xn: nat, level: nat, m: nat)
    requires w.Valid()
    reads w.buf
  {
    && level <= POWER_ENTRIES && xn <= w.len && Full(w.Sub(0, xn)) && w.Sub(0, xn).Value() < LevelPower(base, nd, level)
    && (level > 0 ==> LevelPower(base, nd, level - 1) < Pow(m) && xn + level + m <= w.len)
  }

  /** `big2str_karatsuba`: zeros and the number, as many characters as the level has, if
      something was printed before; otherwise the number without leading zeros. */
  method Write(o: Output, base: nat, nd: nat, p: DDigit, w: Span, xn: nat, level: nat, tail: nat, ghost m: nat)
    requires Based(base, nd, p) && w.Valid() && Printable(base, nd, w, xn, level, m) && Fits(o, Chars(nd, level), tail)
    modifies o, w.buf
    ensures Printed(o, base, old(w.Sub(0, xn).Value()), Chars(nd, level)) && Fits(o, 0, tail)
    ensures forall s: Span {:trigger s.Digits()} ::
      old(allocated(s)) && s.Valid() && s.Disjoint(w) ==> s.Digits() == old(s.Digits())
    decreases level, 2
  {
    hide Val, Span.Digits, LevelPower, Power, Rep, Padded, Pow, Chars;
    var x := w.Sub(0, xn);
    FullZero(x);
    if xn == 0 {
      RepNothing(base);
      PaddedZero(base, Chars(nd, level));
      if o.started { o.Put(Zeros(Chars(nd, level))); }
      return;
    }
    if level == 0 {
      OneLevel(base, nd, p, x);
      Write2(o, base, nd, x, tail);
      return;
    }
    var lower, b, less := FindLevel(base, nd, p, x, level);
    if less {
      OneLevel(base, nd, p, x);
      WriteShort(o, base, nd, p, x, level, tail);
    } else {
      WriteHalves(o, base, nd, p, w, xn, level, lower, b, tail, m);
    }
  }

  lemma FullZero(s: Span)
    requires s.Valid() && Full(s)
    ensures s.len == 0 <==> s.Value() == 0
  {
    SpanBound(s);
    ShortFull(s, s.len);
  }

  /** At level 0 a number has at most two digits. */
  lemma OneLevel(base: nat, nd: nat, p: DDigit, x: Span)
    requires Based(base, nd, p) && x.Valid() && Full(x)
    ensures Chars(nd, 0) == nd && (x.Value() < LevelPower(base, nd, 0) ==> x.len <= 2 && x.Value() < Power(base, nd))
  {
    LevelZero(base, nd);
    assert nd * 1 == nd;
    assert Pow(2) == 0x1_0000_0000 * Pow(1) && Pow(1) == 0x1_0000_0000;
    if x.Value() < LevelPower(base, nd, 0) { ShortFull(x, 2); }
  }

  /** A number of two digits, at a higher level. */
  method WriteShort(o: Output, base: nat, nd: nat, p: DDigit, x: Span, level: nat, tail: nat)
    requires Based(base, nd, p) && x.Valid() && x.len <= 2 && level > 0 && x.Value() < Power(base, nd)
             && Fits(o, Chars(nd, level), tail)
    modifies o
    ensures Printed(o, base, x.Value(), Chars(nd, level)) && Fits(o, 0, tail)
  {
    hide Val, Span.Digits, LevelPower, Power, Rep, Padded, Pow, Chars;
    var half := Chars(nd, level - 1);
    LevelUp(base, nd, level - 1);
    LevelMonotone(base, nd, p, 0, level);
    LevelZeroChars(nd);
    PaddedMore(base, x.Value(), 2 * half - nd, nd);
    if o.started { o.Put(Zeros(2 * half - nd)); }
    Write2(o, base, nd, x, tail);
  }

  lemma LevelZeroChars(nd: nat)
    ensures Chars(nd, 0) == nd
  {
    assert nd * 1 == nd;
  }

  /** Quotient and remainder by the power of a lower level, one after the other. */
  method WriteHalves(o: Output, base: nat, nd: nat, p: DDigit, w: Span, xn: nat, level: nat, lower: nat, b: Span,
                     tail: nat, ghost m: nat)
    requires Based(base, nd, p) && w.Valid() && Printable(base, nd, w, xn, level, m) && Fits(o, Chars(nd, level), tail)
    requires lower < level && w.buf != b.buf && b.Valid() && b.len >= 2 && Full(b)
             && b.Value() == LevelPower(base, nd, lower)
    requires b.Value() <= w.Sub(0, xn).Value() < LevelPower(base, nd, lower + 1)
    modifies o, w.buf
    ensures Printed(o, base, old(w.Sub(0, xn).Value()), Chars(nd, level)) && Fits(o, 0, tail)
    ensures forall s: Span {:trigger s.Digits()} ::
      old(allocated(s)) && s.Valid() && s.Disjoint(w) ==> s.Digits() == old(s.Digits())
    decreases level, 1
  {
    hide Val, Span.Digits, LevelPower, Power, Rep, Padded, Pow, Chars;
    ghost var x, y := w.Sub(0, xn).Value(), b.Value();
    var bn, lo, half := b.len, Chars(nd, lower), Chars(nd, level - 1);
    HalvesFacts(base, nd, p, w, xn, level, lower, b, m);
    ghost var was, st := o.text, o.started;
    if lower != level - 1 && o.started { o.Put(Zeros(2 * (half - lo))); }
    DivideInPlace(w, xn, b);
    WriteBoth(o, base, nd, p, w, bn, xn + 1 - bn, lower, tail, m);
    Joined(was, Zeros(2 * (half - lo)), Padded(base, x / y, lo), Padded(base, x % y, lo));
    Joined(was, [], Rep(base, x / y), Padded(base, x % y, lo));
    assert o.text == was + if st then Padded(base, x, Chars(nd, level)) else Rep(base, x);
  }

  lemma HalvesFacts(base: nat, nd: nat, p: DDigit, w: Span, xn: nat, level: nat, lower: nat, b: Span, m: nat)
    requires Based(base, nd, p) && w.Valid() && Printable(base, nd, w, xn, level, m) && lower < level
    requires b.Valid() && b.len >= 2 && Full(b) && b.Value() == LevelPower(base, nd, lower)
    requires b.Value() <= w.Sub(0, xn).Value() < LevelPower(base, nd, lower + 1)
    ensures b.len <= m && b.len <= xn && xn + 1 + b.len <= w.len
            && (lower > 0 ==> LevelPower(base, nd, lower - 1) < Pow(m))
    ensures var x, y, lo, half := w.Sub(0, xn).Value(), b.Value(), Chars(nd, lower), Chars(nd, level - 1);
            && y > 0 && 0 < x / y < y && x % y < y && lo <= half && (lower == level - 1 ==> lo == half)
            && Chars(nd, level) == 2 * (half - lo) + (lo + lo)
            && Rep(base, x) == Rep(base, x / y) + Padded(base, x % y, lo)
            && Padded(base, x, Chars(nd, level)) == Zeros(2 * (half - lo))
               + (Padded(base, x / y, lo) + Padded(base, x % y, lo))
  {
    hide Val, Span.Digits, LevelPower, Power, Rep, Padded, Pow, Chars;
    var x, y, lo, half := w.Sub(0, xn).Value(), b.Value(), Chars(nd, lower), Chars(nd, level - 1);
    Spaces(base, nd, p, w, xn, level, lower, b, m);
    LevelUp(base, nd, lower);
    LevelUp(base, nd, level - 1);
    LevelMonotone(base, nd, p, lower, level - 1);
    LevelIs(base, nd, lower);
    QuotientRemainder(x, y);
    HalvesText(base, x / y, x % y, y, lo, 2 * (half - lo));
  }

  lemma Joined(t: Text, z: Text, q: Text, r: Text)
    ensures (t + z) + q + r == t + (z + (q + r))
    ensures z == [] ==> t + q + r == t + (q + r) && t + (z + (q + r)) == t + (q + r)
  {}

  method WriteBoth(o: Output, base: nat, nd: nat, p: DDigit, w: Span, bn: nat, qlen: nat, lower: nat, tail: nat,
                   ghost m: nat)
    requires Based(base, nd, p) && w.Valid() && lower <= POWER_ENTRIES && bn + qlen + lower + m <= w.len
             && Fits(o, Chars(nd, lower), Chars(nd, lower) + tail)
    requires 0 < w.Sub(bn, qlen).Value() < LevelPower(base, nd, lower)
             && w.Sub(0, bn).Value() < LevelPower(base, nd, lower)
    requires lower > 0 ==> LevelPower(base, nd, lower - 1) < Pow(m)
    modifies o, w.buf
    ensures o.started && Fits(o, 0, tail)
    ensures var q, r, n := old(w.Sub(bn, qlen).Value()), old(w.Sub(0, bn).Value()), Chars(nd, lower);
            o.text == old(o.text) + (if old(o.started) then Padded(base, q, n) else Rep(base, q)) + Padded(base, r, n)
    ensures forall s: Span {:trigger s.Digits()} ::
      old(allocated(s)) && s.Valid() && s.Disjoint(w) ==> s.Digits() == old(s.Digits())
    decreases lower + 1, 0
  {
    hide Val, Span.Digits, LevelPower, Power, Rep, Padded, Pow, Chars;
    var wq := w.Sub(bn, w.len - bn);
    var qs := Shortened(w.Sub(bn, qlen));
    assert qs == wq.Sub(0, qs.len);
    Write(o, base, nd, p, wq, qs.len, lower, Chars(nd, lower) + tail, m);
    var rs := Shortened(w.Sub(0, bn));
    assert rs == w.Sub(0, rs.len);
    Write(o, base, nd, p, w, rs.len, lower, tail, m);
  }

  lemma LevelIs(base: nat, nd: nat, l: nat)
    ensures LevelPower(base, nd, l) == Power(base, Chars(nd, l))
  {}

  /** The room is enough for the division, and for what the halves need. */
  lemma Spaces(base: nat, nd: nat, p: DDigit, w: Span, xn: nat, level: nat, lower: nat, b: Span, m: nat)
    requires Based(base, nd, p) && w.Valid() && Printable(base, nd, w, xn, level, m) && lower < level
    requires b.Valid() && Full(b) && b.Value() == LevelPower(base, nd, lower) <= w.Sub(0, xn).Value()
    ensures b.len <= m && b.len <= xn && xn + 1 + b.len <= w.len
    ensures lower > 0 ==> LevelPower(base, nd, lower - 1) < Pow(m)
  {
    hide Val, Span.Digits, LevelPower, Pow;
    LevelMonotone(base, nd, p, lower, level - 1);
    ShortFull(b, m);
    SpanBound(w.Sub(0, xn));
    NotLonger(b, w.Sub(0, xn));
    if lower > 0 { LevelMonotone(base, nd, p, lower - 1, level - 1); }
  }

  lemma NotLonger(b: Span, x: Span)
    requires b.Valid() && x.Valid() && Full(b) && b.Value() <= x.Value()
    ensures b.len <= x.len
  {
    if x.len < b.len { LongerIsLarger(x, b); }
  }

  lemma QuotientRemainder(x: nat, y: nat)
    requires 0 < y <= x < y * y
    ensures x == (x / y) * y + x % y && 0 < x / y < y && x % y < y
  {
    var q, r := x / y, x % y;
    assert x == q * y + r;
    assert q >= y ==> q * y >= y * y;
    assert q <= 0 ==> q * y <= 0;
  }

  /** The text of a number in two halves. */
  lemma HalvesText(base: nat, q: nat, r: nat, y: nat, lo: nat, pad: nat)
    requires 2 <= base && y == Power(base, lo) && 0 < q < y && r < y
    ensures Rep(base, q * y + r) == Rep(base, q) + Padded(base, r, lo)
    ensures Padded(base, q * y + r, pad + (lo + lo)) == Zeros(pad) + (Padded(base, q, lo) + Padded(base, r, lo))
  {
    hide Power, Rep, Padded;
    RepSplit(base, q, r, lo);
    PaddedSplit(base, q, r, lo, lo);
    PowerAdd(base, lo, lo);
    MulMonotone(q + 1, y, y);
    PaddedMore(base, q * y + r, pad, lo + lo);
  }

  //----------------------------------------------------------------------------
  // The whole number

  /** The level to start with: its power exceeds the number. */
  method StartLevel(base: nat, nd: nat, p: DDigit, x: Span) returns (level: nat, m: nat)
    requires Based(base, nd, p) && x.Valid() && Full(x) && x.len <= LONG_MAX
    ensures level <= POWER_ENTRIES && x.Value() < LevelPower(base, nd, level)
            && (level > 0 ==> LevelPower(base, nd, level - 1) < Pow(m))
  {
    hide Val, Span.Digits, LevelPower, Power, Pow, Pow2;
    level := 0;
    PowZero();
    var power := GetPower(base, nd, p, 0);
    while power.len <= (x.len + 1) / 2
      invariant power.Valid() && power.len >= 2 && Full(power) && power.Value() == LevelPower(base, nd, level)
      invariant level < POWER_ENTRIES && Pow2(level) < power.len
      decreases (x.len + 1) / 2 - power.len
    {
      SmallLevel(level, power.len);
      var next := GetPower(base, nd, p, level + 1);
      LevelUp(base, nd, level);
      SquareLong(power, next);
      NextPow2(level);
      level := level + 1;
      power := next;
    }
    m := power.len;
    SpanBound(power);
    Exceeds(x, power);
    LevelUp(base, nd, level);
    if level > 0 { LevelMonotone(base, nd, p, level - 1, level); }
    if power.len <= x.len { level := level + 1; }
  }

  lemma NextPow2(k: nat)
    ensures Pow2(k + 1) == 2 * Pow2(k)
  {}

  /** A level whose power can be stored has an entry. */
  lemma SmallLevel(level: nat, n: nat)
    requires Pow2(level) < n <= 0x1_0000_0000_0000_0000
    ensures level < 64
  {
    SixtyFour();
    if level >= 64 { Pow2Monotone(64, level); }
  }

  /** A power that is longer than half of a number: its square exceeds the number, and it
      does so itself if it is longer than the number. */
  lemma Exceeds(x: Span, power: Span)
    requires x.Valid() && power.Valid() && Full(power) && power.len >= 2 && (x.len + 1) / 2 < power.len
    ensures x.Value() < power.Value() * power.Value() && (x.len < power.len ==> x.Value() < power.Value())
  {
    hide Val, Span.Digits, Pow;
    var m := power.len - 1;
    SpanBound(x);
    FullBounds(power);
    PowAdd(m, m);
    MulMonotone(Pow(m), power.Value(), Pow(m));
    MulMonotone(Pow(m), power.Value(), power.Value());
    PowMonotone(x.len, 2 * m);
    if x.len < power.len { PowMonotone(x.len, m); }
  }

  /** What `big2str_generic` comes to. */
  datatype Printout = Number(negative: bool, digits: Text) | InvalidRadix | TooBig

  const LONG_MAX: nat := 0x7FFF_FFFF_FFFF_FFFF

  /** `big2str_generic`: a sign and the canonical digits. */
  method ToText(negative: bool, ds: seq<Digit>, base: int) returns (r: Printout)
    requires negative ==> Val(ds) != 0
    ensures Val(ds) == 0 ==> r == Number(false, [0])
    ensures r.InvalidRadix? <==> Val(ds) != 0 && !(2 <= base <= 36)
    ensures r.TooBig? <==> Val(ds) != 0 && 2 <= base <= 36 && Val(ds) >= Pow(LONG_MAX / 32 - 1)
    ensures r.Number? && Val(ds) != 0 ==> 2 <= base <= 36 && r.digits == Rep(base, Val(ds)) && r.negative == negative
    ensures r.Number? ==> |r.digits| <= LONG_MAX - 1
  {
    hide Val, LevelPower, Power, Rep, Pow;
    var a := new Digit[|ds|](i requires 0 <= i < |ds| => ds[i]);
    var xs := Span(a, 0, |ds|);
    assert xs.Digits() == ds;
    hide Span.Digits;
    var x := Shortened(xs);
    FullZero(x);
    if x.len == 0 { return Number(false, [0]); }
    if !(2 <= base <= 36) { return InvalidRadix; }
    if x.len >= LONG_MAX / 32 {
      FullBounds(x);
      PowMonotone(LONG_MAX / 32 - 1, x.len - 1);
      return TooBig;
    }
    SpanBound(x);
    PowMonotone(x.len, LONG_MAX / 32 - 1);
    var o := new Output();
    var p, nd := MaxPow(base);
    PrintAll(o, base, nd, p, x);
    RepFits(base, Val(ds));
    r := Number(negative, o.text);
  }

  method PrintAll(o: Output, base: nat, nd: nat, p: DDigit, x: Span)
    requires Based(base, nd, p) && x.Valid() && Full(x) && x.len <= LONG_MAX && !o.started && o.text == []
    modifies o
    ensures o.text == Rep(base, x.Value()) && (o.started ==> o.room == |o.text|)
  {
    hide Val, Span.Digits, LevelPower, Power, Rep, Padded, Pow, Chars;
    var level, m := StartLevel(base, nd, p, x);
    if level == 0 {
      OneLevel(base, nd, p, x);
      Write2(o, base, nd, x, 0);
    } else {
      var n := x.len + level + m;
      var a := new Digit[n];
      var w := Span(a, 0, n);
      Copy(w.Sub(0, x.len), x);
      SameFull(x, w.Sub(0, x.len));
      Write(o, base, nd, p, w, x.len, level, 0, m);
    }
  }

  /** A number has no more digits in a base than bits. */
  lemma {:induction false} RepLength(base: nat, x: nat, m: nat)
    requires base >= 2 && x < Pow2(m)
    ensures |Rep(base, x)| <= m
    decreases m
  {
    if x > 0 {
      var q := Quo(x, base);
      DivideBase(x, base);
      hide Quo, Rem;
      MulMonotone(2, base, q);
      RepLength(base, q, m - 1);
    }
  }

  /** So the allocation of the text never fails for its length. */
  lemma RepFits(base: nat, x: nat)
    requires base >= 2 && x < Pow(LONG_MAX / 32 - 1)
    ensures |Rep(base, x)| <= LONG_MAX - 1
  {
    hide Pow, Pow2, Rep;
    Bitwise.PowIsPow2(LONG_MAX / 32 - 1);
    RepLength(base, x, 32 * (LONG_MAX / 32 - 1));
  }

  lemma SameFull(x: Span, y: Span)
    requires x.Valid() && y.Valid() && x.len == y.len && Full(x) && x.Value() == y.Value()
    ensures Full(y)
  {
    ValInjective(x.Digits(), y.Digits());
  }
}

/** Digit buffers: what a `BDIGIT *ds` together with its length denotes.

    A `BDIGIT` is 32 bits and a `BDIGIT_DBL` 64 bits, so the base is
    0x1_0000_0000; below it is called b.  Variables of these C types are given the
    subset types declared here, so every assignment carries a proof that the value
    fits; where the source relies on wrap-around it is written out. */
module Digits {

  const BITSPERDIG: nat := 32

  type Digit = x: int | 0 <= x < 0x1_0000_0000
  type DDigit = x: int | 0 <= x < 0x1_0000_0000_0000_0000
  type SDigit = x: int | -0x8000_0000_0000_0000 <= x < 0x8000_0000_0000_0000

  const BDIGMAX: Digit := 0xFFFF_FFFF

  /** `BIGLO` and `BIGDN`; on a signed operand `BIGDN` is an arithmetic shift. */
  function Lo(x: int): Digit { x % 0x1_0000_0000 }
  function Dn(x: int): int { x / 0x1_0000_0000 }

  /** b^n. */
  function Pow(n: nat): (p: nat)
    ensures p > 0
  {
    if n == 0 then 1 else 0x1_0000_0000 * Pow(n - 1)
  }

  /** The number a digit sequence stands for, least significant digit first. */
  function Val(ds: seq<Digit>): nat
  {
    if ds == [] then 0 else ds[0] + 0x1_0000_0000 * Val(ds[1..])
  }

  /** A pointer into a buffer with the number of digits it covers. */
  datatype Span = Span(buf: array<Digit>, off: nat, len: nat) {

    predicate Valid() { off + len <= buf.Length }

    predicate Disjoint(s: Span) {
      buf != s.buf || off + len <= s.off || s.off + s.len <= off || len == 0 || s.len == 0
    }

    /** Writing this span from index 0 upwards never overwrites a digit of `s` that is
        read at the same or a later index. */
    predicate BehindOf(s: Span) {
      buf != s.buf || off <= s.off || s.off + s.len <= off
    }

    /** The same for writing downwards. */
    predicate AheadOf(s: Span) {
      buf != s.buf || s.off <= off || off + len <= s.off
    }

    /** `ds + i`, taking `n` digits. */
    function Sub(i: nat, n: nat): Span
      requires i + n <= len
    {
      Span(buf, off + i, n)
    }

    ghost function Digits(): (ds: seq<Digit>)
      requires Valid()
      reads buf
      ensures |ds| == len
    {
      buf[off..off + len]
    }

    ghost function Value(): nat
      requires Valid()
      reads buf
    {
      Val(Digits())
    }
  }

  //----------------------------------------------------------------------------
  // x * b^n, written so that only multiplication by a constant occurs

  function Shl(x: int, n: nat): int
  {
    if n == 0 then x else 0x1_0000_0000 * Shl(x, n - 1)
  }

  lemma {:induction false} ShlAdd(x: int, y: int, n: nat)
    ensures Shl(x + y, n) == Shl(x, n) + Shl(y, n)
  {
    if n != 0 { ShlAdd(x, y, n - 1); }
  }

  lemma {:induction false} ShlUp(x: int, n: nat)
    ensures Shl(0x1_0000_0000 * x, n) == Shl(x, n + 1)
  {
    if n != 0 { ShlUp(x, n - 1); }
  }

  lemma {:induction false} ShlIsProduct(x: int, n: nat)
    ensures Shl(x, n) == x * Pow(n)
  {
    if n != 0 {
      ShlIsProduct(x, n - 1);
      MulAssoc(0x1_0000_0000, x, Pow(n - 1));
    }
  }

  lemma {:induction false} ShlUnit(n: nat)
    ensures Shl(1, n) == Pow(n) && Shl(0, n) == 0
  {
    if n != 0 { ShlUnit(n - 1); }
  }

  lemma ShlOne(x: int)
    ensures Shl(x, 1) == 0x1_0000_0000 * x
  {
    assert Shl(x, 0) == x;
  }

  /** A sum of digits and carry, weighted, split into its low digit and the carry. */
  lemma ShlSplit(t: int, n: nat)
    ensures Shl(t, n) == Shl(Lo(t), n) + Shl(Dn(t), n + 1)
  {
    ShlUp(Dn(t), n);
    ShlAdd(Lo(t), 0x1_0000_0000 * Dn(t), n);
  }

  lemma {:induction false} ShlScale(x: int, y: int, n: nat)
    ensures Shl(x * y, n) == x * Shl(y, n)
  {
    if n != 0 {
      ShlScale(x, y, n - 1);
      MulAssoc(0x1_0000_0000, x, Shl(y, n - 1));
    }
  }

  lemma ShlNeg(x: int, n: nat)
    ensures Shl(-x, n) == -Shl(x, n)
  {
    ShlAdd(x, -x, n);
    ShlUnit(n);
  }

  lemma {:induction false} ShlShl(x: int, m: nat, n: nat)
    ensures Shl(Shl(x, m), n) == Shl(x, m + n)
  {
    if n != 0 { ShlShl(x, m, n - 1); }
  }

  lemma ShlJoin(x: int, y: int, m: nat, n: nat)
    ensures Shl(x + Shl(y, m), n) == Shl(x, n) + Shl(y, m + n)
  {
    ShlAdd(x, Shl(y, m), n);
    ShlShl(y, m, n);
  }

  /** The carry out of the low part is the carry into the high part. */
  lemma JoinCarry(zl: int, zh: int, a: int, b: int, c1: int, c: int, k: nat, m: nat)
    requires zl + Shl(c1, k) == a && zh + Shl(c, m) == b + c1
    ensures zl + Shl(zh, k) + Shl(c, k + m) == a + Shl(b, k)
  {
    ShlAdd(zh, Shl(c, m), k);
    ShlShl(c, m, k);
    ShlAdd(b, c1, k);
  }

  lemma MulDistrib(a: int, x: int, y: int)
    ensures a * (x + y) == a * x + a * y
  {}

  lemma MulAssoc(a: int, x: int, y: int)
    ensures a * (x * y) == x * (a * y) == (a * x) * y
  {}

  //----------------------------------------------------------------------------
  // Powers and values

  lemma {:induction false} PowAdd(m: nat, n: nat)
    ensures Pow(m + n) == Pow(m) * Pow(n)
  {
    if m != 0 {
      PowAdd(m - 1, n);
      MulAssoc(0x1_0000_0000, Pow(m - 1), Pow(n));
    }
  }

  lemma {:induction false} PowMonotone(m: nat, n: nat)
    requires m <= n
    ensures Pow(m) <= Pow(n)
    decreases n
  {
    if m < n { PowMonotone(m, n - 1); }
  }

  lemma {:induction false} ValAppend(s: seq<Digit>, t: seq<Digit>)
    ensures Val(s + t) == Val(s) + Shl(Val(t), |s|)
  {
    if s == [] {
      assert s + t == t;
    } else {
      assert (s + t)[1..] == s[1..] + t;
      ValAppend(s[1..], t);
    }
  }

  lemma ValEmpty(ds: seq<Digit>)
    ensures |ds| == 0 ==> Val(ds) == 0
  {}

  lemma ValSingle(d: Digit)
    ensures Val([d]) == d
  {
    assert Val([d][1..]) == 0;
  }

  lemma ValPair(d: Digit, e: Digit)
    ensures Val([d, e]) == d + 0x1_0000_0000 * e
  {
    assert [d, e][1..] == [e];
    ValSingle(e);
  }

  lemma ValSnoc(s: seq<Digit>, d: Digit)
    ensures Val(s + [d]) == Val(s) + Shl(d, |s|)
  {
    ValAppend(s, [d]);
    ValSingle(d);
  }

  /** The prefix one digit longer. */
  lemma ValPrefix(s: seq<Digit>, i: nat)
    requires i < |s|
    ensures Val(s[..i + 1]) == Val(s[..i]) + Shl(s[i], i)
  {
    assert s[..i + 1] == s[..i] + [s[i]];
    ValSnoc(s[..i], s[i]);
  }

  lemma ValSplit(s: seq<Digit>, k: nat)
    requires k <= |s|
    ensures Val(s) == Val(s[..k]) + Shl(Val(s[k..]), k)
  {
    assert s == s[..k] + s[k..];
    ValAppend(s[..k], s[k..]);
  }

  lemma {:induction false} ValBound(s: seq<Digit>)
    ensures Val(s) < Pow(|s|)
  {
    if s != [] { ValBound(s[1..]); }
  }

  lemma {:induction false} ValZeros(s: seq<Digit>)
    requires forall i :: 0 <= i < |s| ==> s[i] == 0
    ensures Val(s) == 0
  {
    if s != [] { ValZeros(s[1..]); }
  }

  /** Digits of equal length with zeros from some place on. */
  lemma ValDropZeros(s: seq<Digit>, k: nat)
    requires k <= |s| && forall i :: k <= i < |s| ==> s[i] == 0
    ensures Val(s) == Val(s[..k])
  {
    ValZeros(s[k..]);
    ShlUnit(k);
    ValSplit(s, k);
  }

  lemma {:induction false} ValMax(s: seq<Digit>)
    requires forall i :: 0 <= i < |s| ==> s[i] == BDIGMAX
    ensures Val(s) == Pow(|s|) - 1
  {
    if s != [] { ValMax(s[1..]); }
  }

  /** Equal length and equal value means equal digits. */
  lemma {:induction false} ValInjective(s: seq<Digit>, t: seq<Digit>)
    requires |s| == |t| && Val(s) == Val(t)
    ensures s == t
  {
    if s != [] {
      assert s[0] == Val(s) % 0x1_0000_0000 && t[0] == Val(t) % 0x1_0000_0000;
      ValInjective(s[1..], t[1..]);
      assert s == [s[0]] + s[1..] && t == [t[0]] + t[1..];
    }
  }

  /** Only the all-zero buffer has value 0. */
  lemma {:induction false} ValZeroDigits(s: seq<Digit>)
    requires Val(s) == 0
    ensures forall i :: 0 <= i < |s| ==> s[i] == 0
  {
    if s != [] {
      ValZeroDigits(s[1..]);
      assert forall i :: 1 <= i < |s| ==> s[i] == s[1..][i - 1];
    }
  }

  /** Digit i of a number given by its low digits: zero above them. */
  function At(ds: seq<Digit>, i: nat): Digit { if i < |ds| then ds[i] else 0 }

  /** Digits copied and filled up with zeros. */
  lemma CopyValue(zd: seq<Digit>, ds: seq<Digit>)
    requires |ds| <= |zd| && forall j :: 0 <= j < |zd| ==> zd[j] == At(ds, j)
    ensures Val(zd) == Val(ds)
  {
    ValDropZeros(zd, |ds|);
    assert zd[..|ds|] == ds;
  }

  //----------------------------------------------------------------------------
  // Column arithmetic: every loop of the form
  //     num += column i;  zds[i] = BIGLO(num);  num = BIGDN(num);
  // started with num == c.

  function Carry(cols: seq<int>, c: int, i: nat): int
    requires i <= |cols|
  {
    if i == 0 then c else Dn(Carry(cols, c, i - 1) + cols[i - 1])
  }

  function DigitOf(cols: seq<int>, c: int, i: nat): Digit
    requires i < |cols|
  {
    Lo(Carry(cols, c, i) + cols[i])
  }

  lemma CarryStart(cols: seq<int>, c: int)
    ensures Carry(cols, c, 0) == c
  {}

  lemma CarryStep(cols: seq<int>, c: int, i: nat)
    requires i < |cols|
    ensures DigitOf(cols, c, i) == Lo(Carry(cols, c, i) + cols[i])
    ensures Carry(cols, c, i + 1) == Dn(Carry(cols, c, i) + cols[i])
  {}

  /** The number the first n columns stand for. */
  function ColSum(cols: seq<int>, n: nat): int
    requires n <= |cols|
  {
    if n == 0 then 0 else ColSum(cols, n - 1) + Shl(cols[n - 1], n - 1)
  }

  /** Since the start of the method the first i digits of z were overwritten by the
      digits of the columns, and nothing else of the buffer changed. */
  twostate predicate Emitted(z: Span, cols: seq<int>, c: int, i: nat)
    reads z.buf
  {
    && z.Valid() && i <= z.len <= |cols|
    && forall j :: 0 <= j < z.buf.Length ==>
         z.buf[j] == if z.off <= j < z.off + i then DigitOf(cols, c, j - z.off) else old(z.buf[j])
  }

  /** The digits such a loop writes, with its last carry, make up the columns. */
  lemma {:induction false} ColumnValue(zd: seq<Digit>, cols: seq<int>, c: int)
    requires |zd| <= |cols| && forall i :: 0 <= i < |zd| ==> zd[i] == DigitOf(cols, c, i)
    ensures Val(zd) + Shl(Carry(cols, c, |zd|), |zd|) == c + ColSum(cols, |zd|)
  {
    if zd != [] {
      var n := |zd|;
      ColumnValue(zd[..n - 1], cols, c);
      ValPrefix(zd, n - 1);
      assert zd[..n] == zd;
      var t := Carry(cols, c, n - 1) + cols[n - 1];
      ShlSplit(t, n - 1);
      ShlAdd(Carry(cols, c, n - 1), cols[n - 1], n - 1);
    }
  }

  /** The columns of x*us + y*vs, us and vs extended by zeros. */
  function Columns(x: int, us: seq<Digit>, y: int, vs: seq<Digit>, n: nat): (cols: seq<int>)
    ensures |cols| == n
    ensures forall i :: 0 <= i < n ==> cols[i] == x * At(us, i) + y * At(vs, i)
  {
    if n == 0 then [] else Columns(x, us, y, vs, n - 1) + [x * At(us, n - 1) + y * At(vs, n - 1)]
  }

  lemma ColumnsSum(x: int, us: seq<Digit>, y: int, vs: seq<Digit>, n: nat)
    requires |us| <= n && |vs| <= n
    ensures ColSum(Columns(x, us, y, vs, n), n) == x * Val(us) + y * Val(vs)
  {
    ColumnsSumTo(x, us, y, vs, n, n);
    assert Low(us, n) == us && Low(vs, n) == vs;
  }

  /** The digits below place k. */
  function Low(us: seq<Digit>, k: nat): seq<Digit> { if k <= |us| then us[..k] else us }

  lemma ValLow(us: seq<Digit>, k: nat)
    ensures Val(Low(us, k + 1)) == Val(Low(us, k)) + Shl(At(us, k), k)
  {
    if k < |us| { ValPrefix(us, k); } else { ShlUnit(k); assert Low(us, k + 1) == us == Low(us, k); }
  }

  lemma ValLowSplit(us: seq<Digit>, k: nat)
    ensures Val(us) == Val(Low(us, k)) + Shl(Val(us[if k <= |us| then k else |us|..]), k)
  {
    if k <= |us| { ValSplit(us, k); } else { ShlUnit(k); }
  }

  lemma ScaledLow(x: int, us: seq<Digit>, k: nat)
    ensures x * Val(Low(us, k + 1)) == x * Val(Low(us, k)) + Shl(x * At(us, k), k)
  {
    ValLow(us, k);
    ShlScale(x, At(us, k), k);
    MulDistrib(x, Val(Low(us, k)), Shl(At(us, k), k));
  }

  lemma {:induction false} ColumnsSumTo(x: int, us: seq<Digit>, y: int, vs: seq<Digit>, n: nat, k: nat)
    requires k <= n
    ensures ColSum(Columns(x, us, y, vs, n), k) == x * Val(Low(us, k)) + y * Val(Low(vs, k))
  {
    if k != 0 {
      ColumnsSumTo(x, us, y, vs, n, k - 1);
      ScaledLow(x, us, k - 1);
      ScaledLow(y, vs, k - 1);
      ShlAdd(x * At(us, k - 1), y * At(vs, k - 1), k - 1);
    }
  }

  /** Two pieces that make up a span. */
  lemma SpanSplit(z: Span, k: nat)
    requires z.Valid() && k <= z.len
    ensures z.Digits() == z.Sub(0, k).Digits() + z.Sub(k, z.len - k).Digits()
    ensures z.Value() == z.Sub(0, k).Value() + Shl(z.Sub(k, z.len - k).Value(), k)
  {
    assert z.Digits() == z.Sub(0, k).Digits() + z.Sub(k, z.len - k).Digits();
    ValAppend(z.Sub(0, k).Digits(), z.Sub(k, z.len - k).Digits());
  }

  lemma SpanSub(z: Span, k: nat, n: nat)
    requires z.Valid() && k + n <= z.len
    ensures z.Sub(k, n).Digits() == z.Digits()[k..k + n]
  {}

  lemma SpanTails(z: Span)
    requires z.Valid()
    ensures forall k :: 0 <= k <= z.len ==> z.Sub(k, z.len - k).Digits() == z.Digits()[k..]
  {}

  lemma SpanElements(z: Span)
    requires z.Valid()
    ensures forall j :: z.off <= j < z.off + z.len ==> z.buf[j] == z.Digits()[j - z.off]
  {}

  lemma SpanBound(z: Span)
    requires z.Valid()
    ensures z.Value() < Pow(z.len)
  {
    ValBound(z.Digits());
  }

  /** Numbers that agree modulo m and both lie in [0, m) are equal. */
  lemma CongruentEqual(x: int, y: int, k: int, m: int)
    requires 0 <= x < m && 0 <= y < m && x == y + k * m
    ensures x == y && k == 0
  {
    assert k >= 1 ==> k * m >= m;
    assert k <= -1 ==> k * m <= -m;
  }

  lemma MulMonotone(a: int, b: int, c: int)
    requires 0 <= c && a <= b
    ensures a * c <= b * c
  {}

  /** The product of two digits leaves room for two more digits in a `BDIGIT_DBL`. */
  lemma DigitProduct(x: Digit, y: Digit)
    ensures 0 <= x * y <= 0xFFFF_FFFE_0000_0001
  {
    MulMonotone(x, 0xFFFF_FFFF, y);
  }

  /** A product of an m-digit and an n-digit number has at most m + n digits. */
  lemma ProductBound(x: nat, y: nat, m: nat, n: nat)
    requires x < Pow(m) && y < Pow(n)
    ensures 0 <= x * y < Pow(m + n)
  {
    hide Pow;
    PowAdd(m, n);
    ProductBelow(x, y, Pow(m), Pow(n));
  }

  lemma ProductBelow(x: nat, y: nat, p: nat, q: nat)
    requires x < p && y < q
    ensures 0 <= x * y < p * q
  {
    MulMonotone(x, p, y);
    MulMonotone(y + 1, q, p);
  }

  /** A result known up to multiples of b^n, with n digits, for a number below b^n. */
  lemma NoCarryLeft(z: int, v: int, k: int, n: nat)
    requires 0 <= z < Pow(n) && 0 <= v < Pow(n) && z + Shl(k, n) == v
    ensures z == v && k == 0
  {
    ShlIsProduct(k, n);
    CongruentEqual(v, z, k, Pow(n));
  }
}

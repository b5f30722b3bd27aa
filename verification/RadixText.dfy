/**
 * Numbers as digits in a base, the most significant one first.
 */
module RadixText {
  import opened Bits

  type Text = seq<nat>

  /** The number a text stands for. */
  function Read(base: nat, t: Text): nat
  {
    if t == [] then 0 else Read(base, t[..|t| - 1]) * base + t[|t| - 1]
  }

  function Quo(x: nat, base: nat): (q: nat)
    requires base >= 2
    ensures x > 0 ==> q < x
  {
    Halves(x, base);
    x / base
  }

  function Rem(x: nat, base: nat): nat
    requires base >= 2
  {
    x % base
  }

  lemma Halves(x: nat, base: nat)
    requires base >= 2
    ensures x > 0 ==> x / base < x
  {
    var q := x / base;
    assert q * base <= x;
    assert q >= 1 ==> q * base >= q * 2;
  }

  lemma DivideBase(x: nat, base: nat)
    requires base >= 2
    ensures x == Quo(x, base) * base + Rem(x, base) && Rem(x, base) < base
  {}

  /** The canonical text: no leading zero, and nothing for zero. */
  function Rep(base: nat, x: nat): Text
    requires base >= 2
  {
    if x == 0 then [] else Rep(base, Quo(x, base)) + [Rem(x, base)]
  }

  /** The last n digits, with leading zeros. */
  function Padded(base: nat, x: nat, n: nat): (t: Text)
    requires base >= 2
    ensures |t| == n
    decreases n
  {
    if n == 0 then [] else Padded(base, Quo(x, base), n - 1) + [Rem(x, base)]
  }

  function Zeros(n: nat): (t: Text)
    ensures |t| == n && forall i :: 0 <= i < n ==> t[i] == 0
  {
    seq(n, _ => 0)
  }

  ghost predicate InBase(base: nat, t: Text) { forall i :: 0 <= i < |t| ==> t[i] < base }

  //----------------------------------------------------------------------------
  // Powers

  lemma {:induction false} PowerPositive(base: nat, n: nat)
    requires base > 0
    ensures Power(base, n) > 0
    decreases n
  {
    if n > 0 { PowerPositive(base, n - 1); }
  }

  lemma {:induction false} PowerAdd(base: nat, m: nat, n: nat)
    ensures Power(base, m + n) == Power(base, m) * Power(base, n)
    decreases m
  {
    if m > 0 {
      PowerAdd(base, m - 1, n);
      Associate(base, Power(base, m - 1), Power(base, n));
    }
  }

  /** Division by the base, one digit at a time. */
  lemma DivideDigit(base: nat, q: nat, p: nat, r: nat)
    requires base >= 2
    ensures Quo(q * (base * p) + r, base) == q * p + Quo(r, base) && Rem(q * (base * p) + r, base) == Rem(r, base)
  {
    assert q * (base * p) == (q * p) * base by { Associate(q, base, p); Associate(q, p, base); }
    var d, m := r / base, r % base;
    assert (q * p) * base + d * base == (q * p + d) * base;
    DivModUnique(q * (base * p) + r, base, q * p + d, m);
  }

  lemma QuotientBelow(x: nat, base: nat, p: nat)
    requires base >= 2 && x < base * p
    ensures Quo(x, base) < p
  {
    var d := x / base;
    assert d * base <= x;
    assert d >= p ==> d * base >= p * base;
  }

  lemma QuoUnique(x: nat, base: nat, q: nat, r: nat)
    requires base >= 2 && x == q * base + r && r < base
    ensures Quo(x, base) == q && Rem(x, base) == r
  {
    DivModUnique(x, base, q, r);
  }

  //----------------------------------------------------------------------------
  // Reading what was written

  lemma ReadSnoc(base: nat, s: Text, d: nat)
    ensures Read(base, s + [d]) == Read(base, s) * base + d
  {
    assert (s + [d])[..|s|] == s;
  }

  lemma {:induction false} ReadRep(base: nat, x: nat)
    requires base >= 2
    ensures Read(base, Rep(base, x)) == x && InBase(base, Rep(base, x)) && (Rep(base, x) != [] ==> Rep(base, x)[0] != 0)
    decreases x
  {
    hide Quo, Rem, Read;
    if x == 0 {
      ReadNothing(base);
    } else {
      DivideBase(x, base);
      var q, d := Quo(x, base), Rem(x, base);
      ReadRep(base, q);
      ReadSnoc(base, Rep(base, q), d);
      assert q > 0 ==> Rep(base, q) != [];
    }
  }

  lemma ReadNothing(base: nat)
    ensures Read(base, []) == 0
  {}

  /** The canonical text is the only one without a leading zero. */
  lemma {:induction false} RepUnique(base: nat, t: Text)
    requires base >= 2 && InBase(base, t) && (t != [] ==> t[0] != 0)
    ensures Rep(base, Read(base, t)) == t && (t != [] ==> Read(base, t) > 0)
    decreases |t|
  {
    hide Quo, Rem;
    if t != [] {
      var s, d := t[..|t| - 1], t[|t| - 1];
      RepUnique(base, s);
      QuoUnique(Read(base, t), base, Read(base, s), d);
      if s != [] { Positive(Read(base, s), base); }
      assert t == s + [d];
    }
  }

  lemma {:induction false} ReadAppend(base: nat, s: Text, t: Text)
    ensures Read(base, s + t) == Read(base, s) * Power(base, |t|) + Read(base, t)
    decreases |t|
  {
    if t == [] {
      assert s + t == s;
    } else {
      var u, d := t[..|t| - 1], t[|t| - 1];
      ReadAppend(base, s, u);
      assert (s + t)[..|s + t| - 1] == s + u;
      AppendAlgebra(Read(base, s), Power(base, |u|), Read(base, u), base, d);
    }
  }

  lemma AppendAlgebra(s: int, p: int, u: int, base: int, d: int)
    ensures (s * p + u) * base + d == s * (base * p) + (u * base + d)
  {
    assert (s * p) * base == s * (base * p) by { Associate(s, p, base); }
  }

  //----------------------------------------------------------------------------
  // A number in two parts

  lemma {:induction false} RepSplit(base: nat, q: nat, r: nat, n: nat)
    requires base >= 2 && q > 0 && r < Power(base, n)
    ensures Rep(base, q * Power(base, n) + r) == Rep(base, q) + Padded(base, r, n)
    decreases n
  {
    hide Quo, Rem;
    if n > 0 {
      var p := Power(base, n - 1);
      DivideDigit(base, q, p, r);
      QuotientBelow(r, base, p);
      RepSplit(base, q, Quo(r, base), n - 1);
      PowerPositive(base, n);
      Positive(q, Power(base, n));
    }
  }

  lemma Positive(a: nat, b: nat)
    requires a > 0 && b > 0
    ensures a * b > 0
  {}

  lemma {:induction false} PaddedSplit(base: nat, q: nat, r: nat, m: nat, n: nat)
    requires base >= 2 && r < Power(base, n)
    ensures Padded(base, q * Power(base, n) + r, m + n) == Padded(base, q, m) + Padded(base, r, n)
    decreases n
  {
    hide Quo, Rem;
    if n > 0 {
      var p := Power(base, n - 1);
      DivideDigit(base, q, p, r);
      QuotientBelow(r, base, p);
      PaddedSplit(base, q, Quo(r, base), m, n - 1);
    }
  }

  lemma {:induction false} PaddedZero(base: nat, n: nat)
    requires base >= 2
    ensures Padded(base, 0, n) == Zeros(n)
    decreases n
  {
    if n > 0 {
      QuoUnique(0, base, 0, 0);
      PaddedZero(base, n - 1);
    }
  }

  /** A number that is too short gets zeros in front. */
  lemma PaddedMore(base: nat, x: nat, k: nat, n: nat)
    requires base >= 2 && x < Power(base, n)
    ensures Padded(base, x, k + n) == Zeros(k) + Padded(base, x, n)
  {
    PaddedSplit(base, 0, x, k, n);
    PaddedZero(base, k);
  }
}

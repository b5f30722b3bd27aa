/**
 * Reading an integer from bytes: the general part of `bary_unpack_internal`.
 */
module Unpack {
  import opened Bits
  import opened Digits
  import opened PackFormat
  import opened AddSub
  import opened Pack

  //----------------------------------------------------------------------------
  // Bits put together to digits

  /** `dp`, `dd` and `numbits_in_dd`. */
  class BitSink {
    const out: array<Digit>
    var dp: nat
    var dd: DDigit
    var bits: nat

    ghost predicate Valid()
      reads this
    {
      dp <= out.Length && bits < 32 && dd < Pow2(bits) && 32 * dp + bits <= 32 * out.Length
    }

    ghost function Sum(): int
      requires Valid()
      reads this, out
    {
      Val(out[..dp]) + Shl(dd, dp)
    }

    ghost function Count(): nat
      reads this
    {
      32 * dp + bits
    }

    constructor (a: array<Digit>)
      ensures Valid() && out == a && Sum() == 0 && Count() == 0
    {
      out := a;
      dp, dd, bits := 0, 0, 0;
      new;
      assert a[..0] == [];
    }

    /** `integer_unpack_push_bits`. */
    method PushBits(data: nat, n: nat)
      requires Valid() && n <= 8 && data < Pow2(n) && Count() + n <= 32 * out.Length
      modifies this, out
      ensures Valid() && Count() == old(Count()) + n && Sum() == old(Sum()) + Pow2(old(Count())) * data
    {
      hide Val, Pow2, Shl;
      ghost var s := Sum();
      PushValue(dd, bits, data, n, dp);
      dd := Or(dd, data * Pow2(bits));
      bits := bits + n;
      assert Val(out[..dp]) + Shl(dd, dp) == s + Pow2(old(Count())) * data;
      while 32 <= bits
        invariant dp <= out.Length && bits < 64 && dd < Pow2(bits) && Count() == old(Count()) + n
        invariant Val(out[..dp]) + Shl(dd, dp) == s + Pow2(old(Count())) * data
        decreases bits
      {
        EmitValue(out[..dp], dd, bits);
        ghost var low := out[..dp];
        out[dp] := Lo(dd);
        assert out[..dp + 1] == low + [Lo(dd)];
        dp := dp + 1;
        dd := Dn(dd);
        bits := bits - 32;
      }
    }
  }

  lemma PushValue(dd: nat, bits: nat, data: nat, n: nat, dp: nat)
    requires bits < 32 && dd < Pow2(bits) && n <= 8 && data < Pow2(n)
    ensures var e := Or(dd, data * Pow2(bits));
            e < Pow2(bits + n) <= 0x1_0000_0000_0000_0000 && Shl(e, dp) == Shl(dd, dp) + Pow2(32 * dp + bits) * data
  {
    OrIsSum(dd, data, bits);
    Pow2Add(bits, n);
    Pow2Add(32 * dp, bits);
    hide Pow2, Or, Shl;
    PushBound(dd, data, bits, n);
    ShlAdd(dd, data * Pow2(bits), dp);
    ShlIsProduct(data * Pow2(bits), dp);
    Bitwise.PowIsPow2(dp);
    Reordered(data, Pow2(bits), Pow2(32 * dp));
  }

  lemma PushBound(dd: nat, data: nat, bits: nat, n: nat)
    requires bits < 32 && dd < Pow2(bits) && n <= 8 && data < Pow2(n)
    ensures dd + data * Pow2(bits) < Pow2(bits) * Pow2(n) == Pow2(bits + n) <= 0x1_0000_0000_0000_0000
  {
    Pow2Add(bits, n);
    Pow2Monotone(bits + n, 64);
    SixtyFour();
    hide Pow2;
    Weighted(dd, Pow2(bits), data, Pow2(n));
  }

  lemma Reordered(d: int, p: int, q: int)
    ensures (d * p) * q == (q * p) * d
  {}

  lemma EmitValue(low: seq<Digit>, dd: DDigit, bits: nat)
    requires 32 <= bits && dd < Pow2(bits)
    ensures Dn(dd) < Pow2(bits - 32) && Val(low + [Lo(dd)]) + Shl(Dn(dd), |low| + 1) == Val(low) + Shl(dd, |low|)
  {
    ValSnoc(low, Lo(dd));
    ShlSplit(dd, |low|);
    Pow2Values();
    Pow2Add(32, bits - 32);
  }

  //----------------------------------------------------------------------------
  // One word

  /** The inner part of the loop over the words. */
  method UnpackWord(f: Format, bs: seq<Byte>, sink: BitSink, wordp: nat, fullBytes: nat, partialBits: nat,
                    byteStart: nat, byteStep: int, ghost k: nat)
    requires f.Valid() && |bs| == f.Size() && k < f.numwords && wordp == f.WordStart(k) && sink.Valid()
    requires sink.Count() + f.WordBits() <= 32 * sink.out.Length
    requires fullBytes == f.Full() && partialBits == f.Partial() && byteStart == Spot(f, 0, 0)
             && byteStep == if f.msbyte then -1 else 1
    modifies sink, sink.out
    ensures sink.Valid() && sink.Count() == old(sink.Count()) + f.WordBits()
    ensures sink.Sum() == old(sink.Sum()) + Pow2(old(sink.Count())) * WordValue(f, Word(f, bs, k))
  {
    hide Pow2, WordValue, Word, Format.WordStart, Format.Size, Format.BitsTo, Format.Width, Format.WordBits,
         BitSink.Sum, BitSink.Valid, BitSink.Count;
    ghost var c, s0, n0 := Word(f, bs, k), sink.Sum(), sink.Count();
    WordSpots(f, bs, k);
    Layout(f);
    NothingRead(f, c, n0);
    var index := 0;
    var bytep: int := wordp + byteStart;
    while index < fullBytes
      invariant index <= fullBytes && bytep == Spot(f, wordp, index)
      invariant sink.Valid() && sink.Count() == n0 + f.BitsTo(index)
                && sink.Sum() == s0 + Pow2(n0) * WordValue(f, c[..index])
    {
      PowEight();
      ByteRead(f, c, index, n0);
      sink.PushBits(bs[bytep], 8);
      bytep := bytep + byteStep;
      index := index + 1;
    }
    if partialBits != 0 {
      ByteRead(f, c, index, n0);
      AndMask(bs[bytep], partialBits);
      sink.PushBits(And(bs[bytep], Pow2(partialBits) - 1), partialBits);
      bytep := bytep + byteStep;
      index := index + 1;
    }
    WholeRead(f, c, index);
  }

  lemma WholeRead(f: Format, c: seq<Byte>, index: nat)
    requires f.Valid() && index <= |c| == f.wordsize && f.BitsTo(index) == f.WordBits()
    ensures WordValue(f, c[..index]) == WordValue(f, c)
  {
    NoMoreValue(f, c[..index], c[index..]);
    assert c[..index] + c[index..] == c;
  }

  lemma Layout(f: Format)
    requires f.Valid()
    ensures f.Full() <= f.wordsize && (f.Partial() != 0 ==> f.Full() < f.wordsize) && f.BitsTo(0) == 0
    ensures (forall b: nat :: b < f.Full() ==> f.Width(b) == 8) && f.Width(f.Full()) == f.Partial()
    ensures f.BitsTo(if f.Partial() != 0 then f.Full() + 1 else f.Full()) == f.WordBits()
  {
    WordBitsAre(f);
  }

  lemma WordSpots(f: Format, bs: seq<Byte>, k: nat)
    requires f.Valid() && |bs| == f.Size() && k < f.numwords
    ensures var p := f.WordStart(k);
            p + f.wordsize <= |bs| && forall b :: 0 <= b < f.wordsize ==> bs[Spot(f, p, b)] == Word(f, bs, k)[b]
  {
    Inside(f, k);
  }

  lemma PowEight()
    ensures Pow2(8) == 256
  {
    Pow2Values();
  }

  lemma NothingRead(f: Format, c: seq<Byte>, n0: nat)
    requires f.Valid()
    ensures Pow2(n0) * WordValue(f, c[..0]) == 0
  {
    assert c[..0] == [];
  }

  lemma ByteRead(f: Format, c: seq<Byte>, b: nat, n0: nat)
    requires f.Valid() && b < |c|
    ensures f.BitsTo(b + 1) == f.BitsTo(b) + f.Width(b) <= f.WordBits() && Used(f, b, c[b]) < Pow2(f.Width(b))
            && (f.Width(b) == 8 ==> Used(f, b, c[b]) == c[b])
    ensures Pow2(n0) * WordValue(f, c[..b + 1]) == Pow2(n0) * WordValue(f, c[..b])
            + Pow2(n0 + f.BitsTo(b)) * Used(f, b, c[b])
  {
    NextBits(f, b);
    assert c[..b + 1] == c[..b] + [c[b]];
    WordSnoc(f, c[..b], c[b]);
    Pow2Add(n0, f.BitsTo(b));
    PowEight();
    hide Pow2, WordValue, Format.BitsTo;
    if f.Width(b) == 8 { DivModUnique(c[b], 256, 0, c[b]); }
    DoneAlgebra(Pow2(n0), Pow2(f.BitsTo(b)), WordValue(f, c[..b]), Used(f, b, c[b]));
  }

  //----------------------------------------------------------------------------
  // All words

  /** The loop over the words, and the last digits. */
  method UnpackWords(f: Format, bs: seq<Byte>, out: array<Digit>)
    requires f.Valid() && f.numwords > 0 && |bs| == f.Size() && f.TotalBits() <= 32 * out.Length
    modifies out
    ensures Val(out[..]) == Packed(f, bs, f.numwords)
  {
    hide Val, Pow2, Packed, WordValue, Word, Format.WordStart, Format.Size, Format.TotalBits, BitSink.Sum,
         BitSink.Valid, BitSink.Count;
    var fullBytes, partialBits, wordStart, wordStep, wordLast, byteStart, byteStep := LoopSetup(f);
    var sink := new BitSink(out);
    ghost var k := 0;
    var wordp := wordStart;
    NoWordRead(f, bs);
    while true
      invariant k < f.numwords && wordp == f.WordStart(k) && fresh(sink) && sink.out == out
      invariant sink.Valid() && sink.Count() == f.WordBits() * k && sink.Sum() == Packed(f, bs, k)
      decreases f.numwords - k
    {
      WordRead(f, bs, k);
      UnpackWord(f, bs, sink, wordp, fullBytes, partialBits, byteStart, byteStep, k);
      if wordp == wordLast {
        LastWord(f, k);
        k := k + 1;
        break;
      }
      StepWord(f, k);
      wordp := wordp + wordStep;
      k := k + 1;
    }
    Finish(sink);
  }

  lemma NoWordRead(f: Format, bs: seq<Byte>)
    requires f.Valid() && |bs| == f.Size()
    ensures f.WordBits() * 0 == 0 && Packed(f, bs, 0) == 0
  {}

  lemma WordRead(f: Format, bs: seq<Byte>, k: nat)
    requires f.Valid() && |bs| == f.Size() && k < f.numwords
    ensures f.WordBits() * (k + 1) == f.WordBits() * k + f.WordBits() <= f.TotalBits()
    ensures Packed(f, bs, k + 1) == Packed(f, bs, k) + Pow2(f.WordBits() * k) * WordValue(f, Word(f, bs, k))
  {
    MulMonotone(k + 1, f.numwords, f.WordBits());
    assert f.WordBits() * (k + 1) == (k + 1) * f.WordBits();
  }

  /** The bits that are left, and zeros. */
  method Finish(sink: BitSink)
    requires sink.Valid()
    modifies sink, sink.out
    ensures Val(sink.out[..]) == old(sink.Sum())
  {
    hide Val, Pow2, Shl;
    var out := sink.out;
    ghost var s := sink.Sum();
    NoBits(sink);
    if sink.dd != 0 {
      ghost var low := out[..sink.dp];
      ValSnoc(low, sink.dd);
      out[sink.dp] := sink.dd;
      sink.dp := sink.dp + 1;
      assert out[..sink.dp] == low + [sink.dd];
    } else {
      ShlUnit(sink.dp);
    }
    ghost var n := sink.dp;
    ghost var low := out[..n];
    while sink.dp < out.Length
      invariant n <= sink.dp <= out.Length && out[..n] == low && forall i :: n <= i < sink.dp ==> out[i] == 0
    {
      out[sink.dp] := 0;
      sink.dp := sink.dp + 1;
    }
    ValDropZeros(out[..], n);
    assert out[..][..n] == low;
  }

  lemma NoBits(sink: BitSink)
    requires sink.Valid()
    ensures sink.dd < 0x1_0000_0000 && (sink.dd != 0 ==> sink.dp < sink.out.Length)
  {
    Pow2Values();
    Pow2Monotone(sink.bits, 32);
  }

  //----------------------------------------------------------------------------
  // The sign

  /** What a number w read from n bits means: a magnitude, or a number in two's complement
      whose higher bits repeat the highest one, or are all ones. */
  function Meaning(w: nat, n: nat, twocomp: bool, negative: bool): int
  {
    if !twocomp then if negative then -(w as int) else w
    else if negative || (n > 0 && w >= Pow2(n - 1)) then w - Pow2(n)
    else w
  }

  /** What digits with a sign mean; -2 stands for a further digit 1. */
  function Signed(ds: seq<Digit>, sign: int): int
  {
    if sign == 1 then Val(ds) else if sign == -1 then 0 - Val(ds) else 0 - Val(ds) - Pow(|ds|)
  }

  /** The sign that is returned. */
  function SignFor(v: int, len: nat, twocomp: bool, negative: bool): int
  {
    if !twocomp then if negative then -1 else 1
    else if v >= 0 then 1 else if v + Pow(len) == 0 then -2 else -1
  }

  /** What is asked of every way of unpacking. */
  ghost predicate Result(f: Format, bs: seq<Byte>, ds: seq<Digit>, twocomp: bool, negative: bool, sign: int)
    requires f.Valid()
  {
    && |bs| == f.Size()
    && var v := Meaning(Packed(f, bs, f.numwords), f.TotalBits(), twocomp, negative);
       sign == SignFor(v, |ds|, twocomp, negative) && Signed(ds, sign) == v
  }

  /** It leaves nothing open. */
  lemma ResultUnique(f: Format, bs: seq<Byte>, ds: seq<Digit>, es: seq<Digit>, twocomp: bool, negative: bool,
                     sign: int, sign': int)
    requires f.Valid() && |ds| == |es| && Result(f, bs, ds, twocomp, negative, sign)
             && Result(f, bs, es, twocomp, negative, sign')
    ensures ds == es && sign == sign'
  {
    hide Packed, Meaning, SignFor;
    ValInjective(ds, es);
  }

  /** The highest digit tells how large a number is. */
  lemma TopCompare(ds: seq<Digit>, d: nat)
    requires ds != []
    ensures Val(ds) >= d * Pow(|ds| - 1) <==> ds[|ds| - 1] >= d
  {
    TopSplit(ds);
    hide Val, Pow;
    var m := |ds| - 1;
    CompareAlgebra(Val(ds[..m]), ds[m], Pow(m), d);
  }

  lemma TopSplit(ds: seq<Digit>)
    requires ds != []
    ensures var m := |ds| - 1; Val(ds) == Val(ds[..m]) + ds[m] as int * Pow(m) && Val(ds[..m]) < Pow(m)
  {
    var m := |ds| - 1;
    ValSplit(ds, m);
    ValBound(ds[..m]);
    assert ds[m..] == [ds[m]];
    ValSingle(ds[m]);
    ShlIsProduct(ds[m], m);
  }

  lemma CompareAlgebra(l: nat, t: nat, p: nat, d: nat)
    requires l < p
    ensures l + t * p >= d * p <==> t >= d
  {
    if t >= d { MulMonotone(d, t, p); } else { MulMonotone(t + 1, d, p); }
  }

  /** The same, counted in bits; r of those of the highest digit are in use. */
  lemma TopBits(ds: seq<Digit>, r: nat, n: nat)
    requires ds != [] && 1 <= r <= 32 && n == 32 * (|ds| - 1) + r
    ensures Val(ds) >= Pow2(n - 1) <==> ds[|ds| - 1] >= Pow2(r - 1)
    ensures Val(ds) >= Pow2(n) <==> ds[|ds| - 1] >= Pow2(r)
    ensures Pow(|ds|) - Pow2(n) == (0x1_0000_0000 - Pow2(r)) * Pow(|ds| - 1)
  {
    var m := |ds| - 1;
    TopCompare(ds, Pow2(r - 1));
    TopCompare(ds, Pow2(r));
    Bitwise.PowIsPow2(m);
    Pow2Add(r - 1, 32 * m);
    Pow2Add(r, 32 * m);
    hide Pow2;
    assert Pow(m + 1) == 0x1_0000_0000 * Pow(m);
  }

  /** The unused bits of the highest digit are set. */
  lemma FilledUp(d: Digit, r: nat)
    requires 1 <= r < 32 && d < Pow2(r)
    ensures Lo(BDIGMAX as int * Pow2(r)) == 0x1_0000_0000 - Pow2(r)
    ensures Or(d, 0x1_0000_0000 - Pow2(r)) == d + 0x1_0000_0000 - Pow2(r) < 0x1_0000_0000
  {
    Pow2Values();
    Pow2Add(32 - r, r);
    OrIsSum(d, Pow2(32 - r) - 1, r);
    hide Or, Pow2, Lo;
    FillWord(d, Pow2(r), Pow2(32 - r));
  }

  lemma FillWord(d: Digit, p: nat, q: nat)
    requires d < p && q * p == 0x1_0000_0000 && q > 0
    ensures (q - 1) * p == 0x1_0000_0000 - p >= 0 && Lo(0xFFFF_FFFF * p) == 0x1_0000_0000 - p
  {
    assert (q - 1) * p == q * p - p;
    MulMonotone(1, q, p);
    DivModUnique(0xFFFF_FFFF * p, 0x1_0000_0000, p - 1, 0x1_0000_0000 - p);
  }

  lemma Shifted(d: Digit, r: nat)
    ensures d / Pow2(r) != 0 <==> d >= Pow2(r)
  {
    var p := Pow2(r);
    if d < p { DivModUnique(d, p, 0, d); } else { assert d == d / p * p + d % p; }
  }

  lemma ReplaceTop(ds: seq<Digit>, e: Digit)
    requires ds != []
    ensures Val(ds[|ds| - 1 := e]) == Val(ds) + (e as int - ds[|ds| - 1] as int) * Pow(|ds| - 1)
  {
    var m := |ds| - 1;
    var es := ds[m := e];
    TopSplit(ds);
    TopSplit(es);
    assert es[..m] == ds[..m];
    hide Val, Pow;
    Distribute(e, ds[m], Pow(m));
  }

  lemma Distribute(a: int, b: int, p: int)
    ensures (a - b) * p == a * p - b * p
  {}

  /** The sign of a number in two's complement; unless the number is to be left as it is, the
      unused bits are set. */
  method SignOf(out: array<Digit>, negative: bool, nlpBits: nat, ghost n: nat, ghost w: nat) returns (sign: int)
    requires 32 * out.Length == n + nlpBits && nlpBits < 32 && Val(out[..]) == w < Pow2(n)
    modifies out
    ensures sign == 1 || sign == -1 || sign == -2
    ensures sign == 1 ==> Val(out[..]) == w == Meaning(w, n, true, negative)
    ensures sign != 1 ==> Meaning(w, n, true, negative) == w - Pow2(n)
    ensures sign == -1 ==> Val(out[..]) == w + Pow(out.Length) - Pow2(n) > 0 && out.Length > 0
    ensures sign == -2 ==> Val(out[..]) == w == 0 && Pow2(n) == Pow(out.Length)
  {
    hide Val, Pow2, Pow, Or, Lo;
    ghost var ds := out[..];
    if nlpBits != 0 {
      var m := out.Length - 1;
      TopBits(ds, 32 - nlpBits, n);
      Shifted(ds[m], 31 - nlpBits);
      if negative || out[m] / Pow2(32 - nlpBits - 1) != 0 {
        FilledUp(ds[m], 32 - nlpBits);
        out[m] := Or(out[m], Lo(BDIGMAX as int * Pow2(32 - nlpBits)));
        assert out[..] == ds[m := out[m]];
        ReplaceTop(ds, out[m]);
        FillPositive(out.Length, nlpBits, n);
        sign := -1;
      } else {
        sign := 1;
      }
    } else {
      Bitwise.PowIsPow2(out.Length);
      if negative {
        var zero := ZeroP(out);
        NoValue(out[..]);
        sign := if zero then -2 else -1;
      } else if out.Length != 0 {
        TopBits(ds, 32, n);
        PowHalf(n);
        sign := if out[out.Length - 1] >= 0x8000_0000 then -1 else 1;
      } else {
        sign := 1;
      }
    }
  }

  lemma FillPositive(len: nat, nlpBits: nat, n: nat)
    requires 32 * len == n + nlpBits && nlpBits > 0
    ensures Pow(len) > Pow2(n)
  {
    Bitwise.PowIsPow2(len);
    Pow2Monotone(n + 1, 32 * len);
  }

  lemma PowHalf(n: nat)
    ensures Pow2(31) == 0x8000_0000 && (n > 0 ==> Pow2(n - 1) > 0)
  {
    Pow2Values();
  }

  /** `bary_zero_p`. */
  method ZeroP(a: array<Digit>) returns (zero: bool)
    ensures zero <==> Val(a[..]) == 0
  {
    if a.Length == 0 {
      assert a[..] == [];
      return true;
    }
    ghost var ds := a[..];
    var i := a.Length;
    while i > 0
      invariant 0 <= i <= a.Length && forall j :: i <= j < a.Length ==> a[j] == 0
    {
      i := i - 1;
      if a[i] != 0 {
        if Val(ds) == 0 { ValZeroDigits(ds); }
        return false;
      }
    }
    ValZeros(ds);
    return true;
  }

  /** `bary_unpack_internal`, the general part. */
  method GenericUnpack(f: Format, bs: seq<Byte>, out: array<Digit>, twocomp: bool, negative: bool, nlpBits: nat)
    returns (sign: int)
    requires f.Valid() && |bs| == f.Size() && 32 * out.Length == f.TotalBits() + nlpBits && nlpBits < 32
    modifies out
    ensures Result(f, bs, out[..], twocomp, negative, sign)
  {
    hide Val, Pow2, Pow, Packed, Format.Size, Format.TotalBits;
    NoDigits(f, bs, out.Length, nlpBits);
    if out.Length != 0 {
      UnpackWords(f, bs, out);
    } else {
      NoValue(out[..]);
    }
    PackedBelow(f, bs);
    if !twocomp {
      sign := if negative then -1 else 1;
      return;
    }
    sign := SignOf(out, negative, nlpBits, f.TotalBits(), Packed(f, bs, f.numwords));
    if sign == -1 && out.Length != 0 {
      var z := Span(out, 0, out.Length);
      assert z.Digits() == out[..];
      var zero := TwoComp(z);
      assert z.Digits() == out[..];
    }
    ValBound(out[..]);
  }

  lemma NoDigits(f: Format, bs: seq<Byte>, len: nat, nlpBits: nat)
    requires f.Valid() && |bs| == f.Size() && 32 * len == f.TotalBits() + nlpBits && nlpBits < 32
    ensures len == 0 <==> f.numwords == 0
    ensures f.numwords == 0 ==> Packed(f, bs, f.numwords) == 0
  {
    WordBitsAre(f);
    if f.numwords > 0 { MulMonotone(1, f.numwords, f.WordBits()); } else { assert 0 * f.WordBits() == 0; }
  }

  lemma NoValue(ds: seq<Digit>)
    ensures ds == [] ==> Val(ds) == 0
  {}
}

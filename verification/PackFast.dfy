/**
 * The shortcuts of `bary_pack`: each leaves the same buffer and code as the general part.
 */
module PackFast {
  import opened Bits
  import opened Digits
  import opened AddSub
  import opened PackFormat
  import opened Pack
  import opened PackBytes
  import opened PackOrder

  /** What is asked of every way of packing x. */
  ghost predicate Result(f: Format, bs: seq<Byte>, x: int, twocomp: bool, code: int)
    requires f.Valid()
  {
    && |bs| == f.Size() && code == CodeOf(x, Pow2(f.TotalBits()), twocomp)
    && Clean(f, bs, f.numwords) && Packed(f, bs, f.numwords) == Image(x, Pow2(f.TotalBits()), twocomp)
  }

  /** It leaves nothing open. */
  lemma ResultUnique(f: Format, bs: seq<Byte>, cs: seq<Byte>, x: int, twocomp: bool, code: int, code': int)
    requires f.Valid() && Result(f, bs, x, twocomp, code) && Result(f, cs, x, twocomp, code')
    ensures bs == cs && code == code'
  {
    hide Packed, Clean, CodeOf, Image;
    PackedUnique(f, bs, cs);
  }

  predicate Trimmed(ds: seq<Digit>) { ds != [] && ds[|ds| - 1] != 0 }

  //----------------------------------------------------------------------------
  // Sign and overflow, from a low part and what is above it

  /** The code, m being low + p * high. */
  function SplitCode(sign: int, low: nat, high: nat, twocomp: bool): int
  {
    if high == 0 then sign else if sign < 0 && twocomp && low == 0 && high == 1 then sign else 2 * sign
  }

  lemma SplitCodeIs(sign: int, m: nat, low: nat, p: nat, high: nat, twocomp: bool)
    requires (sign == 1 || sign == -1) && low < p && m == low + p * high && m > 0
    ensures CodeOf(sign * m, p, twocomp) == SplitCode(sign, low, high, twocomp) && m % p == low
  {
    LeftOver(m, low, p, high);
    assert sign * m == if sign == 1 then m else 0 - m;
  }

  //----------------------------------------------------------------------------
  // Words of whole digits

  /** The digits put into the order of the format. */
  method Arrange(f: Format, per: nat, w: array<Digit>)
    requires Whole(f, per) && w.Length == Offset(f.numwords, per)
    modifies w
    ensures |BytesOf(w[..])| == f.Size() && Packed(f, BytesOf(w[..]), f.numwords) == old(Val(w[..]))
            && Clean(f, BytesOf(w[..]), f.numwords)
  {
    hide Val, Packed, Clean, BytesOf, SwapAll, Rev, Part, Offset, Format.Size;
    ghost var ds := w[..];
    if f.msbyte { SwapDigits(w); }
    ghost var w1 := w[..];
    if f.msword != f.msbyte { ReverseWords(w, per, f.numwords); }
    ghost var w2 := w[..];
    if f.msword {
      Reverse(w, 0, w.Length);
      assert w[..] == w[0..w.Length] && w2 == w2[0..w.Length];
    }
    Arranged(f, per, ds, w1, w2, w[..]);
  }

  lemma Arranged(f: Format, per: nat, ds: seq<Digit>, w1: seq<Digit>, w2: seq<Digit>, w3: seq<Digit>)
    requires Whole(f, per) && |ds| == |w1| == |w2| == |w3| == Offset(f.numwords, per)
    requires w1 == (if f.msbyte then SwapAll(ds) else ds) && w3 == (if f.msword then Rev(w2) else w2)
    requires if f.msword != f.msbyte
             then forall i :: 0 <= i < f.numwords ==> Offset(i, per) + per <= |ds|
                                                      && Part(w2, per, i) == Rev(Part(w1, per, i))
             else w2 == w1
    ensures |BytesOf(w3)| == f.Size() && Packed(f, BytesOf(w3), f.numwords) == Val(ds)
            && Clean(f, BytesOf(w3), f.numwords)
  {
    hide Val, Packed, Clean, BytesOf, SwapAll, Rev, Part, Offset, Format.Size, Word;
    PartSizes(f, per, |ds|);
    forall k | 0 <= k < f.numwords
      ensures Offset(k, per) + per <= |ds| && Word(f, BytesOf(w3), k) == BytesOf(Part(ds, per, k))
    {
      OffsetInside(k, per, f.numwords);
      if f.msword != f.msbyte { assert Part(w2, per, k) == Rev(Part(w1, per, k)); }
      ArrangedWord(f, per, ds, w1, w2, w3, k);
    }
    PartsPacked(f, per, BytesOf(w3), ds);
  }

  lemma ArrangedWord(f: Format, per: nat, ds: seq<Digit>, w1: seq<Digit>, w2: seq<Digit>, w3: seq<Digit>, k: nat)
    requires Whole(f, per) && |ds| == |w1| == |w2| == |w3| == Offset(f.numwords, per) && k < f.numwords
             && Offset(k, per) + per <= |ds|
    requires w1 == (if f.msbyte then SwapAll(ds) else ds) && w3 == (if f.msword then Rev(w2) else w2)
    requires Part(w2, per, k) == if f.msword != f.msbyte then Rev(Part(w1, per, k)) else Part(w1, per, k)
    ensures |BytesOf(w3)| == f.Size() && Word(f, BytesOf(w3), k) == BytesOf(Part(ds, per, k))
  {
    hide BytesOf, SwapAll, Rev, Part, Offset, Format.Size, Word;
    WordOfDigits(f, per, w3, k);
    if f.msword { RevPart(w2, per, f.numwords, f.numwords - 1 - k); }
    if f.msbyte { SwapPart(ds, per, k); }
    Turned(Part(ds, per, k));
  }

  lemma PartSizes(f: Format, per: nat, n: nat)
    requires Whole(f, per) && n == Offset(f.numwords, per)
    ensures 4 * n == f.Size()
  {
    FourTimes(f.numwords, per);
  }

  lemma Turned(e: seq<Digit>)
    ensures Rev(Rev(e)) == e && Rev(SwapAll(Rev(SwapAll(e)))) == e
  {
    hide Rev, SwapAll;
    RevRev(e);
    RevSwap(SwapAll(e));
    SwapSwap(e);
    RevSwap(Rev(SwapAll(e)));
    RevRev(SwapAll(e));
  }

  /** The digits as they are in memory. */
  method StoreDigits(words: array<Byte>, w: array<Digit>)
    requires words.Length == 4 * w.Length
    modifies words
    ensures words[..] == BytesOf(w[..])
  {
    hide DigitBytes, BytesOf;
    NoBytesOf();
    var i := 0;
    assert words[..0] == [] && w[..0] == [];
    while i < w.Length
      invariant 0 <= i <= w.Length && words[..4 * i] == BytesOf(w[..i])
    {
      var bs := DigitBytes(w[i]);
      ghost var before := words[..4 * i];
      words[4 * i], words[4 * i + 1], words[4 * i + 2], words[4 * i + 3] := bs[0], bs[1], bs[2], bs[3];
      assert w[..i + 1] == w[..i] + [w[i]];
      BytesOfAppend(w[..i], [w[i]]);
      BytesOfOne(w[i]);
      assert words[..4 * (i + 1)] == before + bs;
      i := i + 1;
    }
    assert words[..] == words[..4 * i] && w[..] == w[..i];
  }

  /** A number in a buffer of whole digits; what does not fit is cut off. */
  method CutDigits(ds: seq<Digit>, w: array<Digit>) returns (overflow: bool)
    requires Trimmed(ds)
    modifies w
    ensures overflow <==> |ds| > w.Length
    ensures Val(w[..]) == Val(ds[..if overflow then w.Length else |ds|])
  {
    hide Val;
    var n := if |ds| <= w.Length then |ds| else w.Length;
    forall i | 0 <= i < w.Length { w[i] := if i < n then ds[i] else 0; }
    overflow := |ds| > w.Length;
    ValDropZeros(w[..], n);
    assert w[..][..n] == ds[..n];
    assert n == |ds| ==> ds[..n] == ds;
  }

  /** The part above the buffer is 1. */
  lemma HighDigits(ds: seq<Digit>, n: nat)
    requires Trimmed(ds) && n < |ds|
    ensures var high := Val(ds[n..]);
            Val(ds) == Val(ds[..n]) + Pow(n) * high && Val(ds[..n]) < Pow(n) && high > 0
            && (high == 1 <==> n == |ds| - 1 && ds[n] == 1)
  {
    hide Val, Pow, Shl, Trimmed;
    HighSum(ds, n);
    HighOne(ds, n);
  }

  lemma HighSum(ds: seq<Digit>, n: nat)
    requires n < |ds|
    ensures Val(ds) == Val(ds[..n]) + Pow(n) * Val(ds[n..]) && Val(ds[..n]) < Pow(n)
  {
    hide Val, Pow, Shl;
    ValSplit(ds, n);
    ValBound(ds[..n]);
    ShlIsProduct(Val(ds[n..]), n);
  }

  lemma HighOne(ds: seq<Digit>, n: nat)
    requires Trimmed(ds) && n < |ds|
    ensures Val(ds[n..]) > 0 && (Val(ds[n..]) == 1 <==> n == |ds| - 1 && ds[n] == 1)
  {
    hide Val, Trimmed;
    HighEnd(ds, n);
    SomeDigits(ds[n..]);
  }

  lemma HighEnd(ds: seq<Digit>, n: nat)
    requires Trimmed(ds) && n < |ds|
    ensures var high := ds[n..];
            high != [] && high[|high| - 1] != 0 && (high == [1] <==> n == |ds| - 1 && ds[n] == 1)
  {
    var high := ds[n..];
    assert high[0] == ds[n] && high[|high| - 1] == ds[|ds| - 1];
    assert high == [1] <==> |high| == 1 && high[0] == 1;
  }

  /** Words of whole digits. */
  method PackDigits(sign: int, ds: seq<Digit>, f: Format, per: nat, words: array<Byte>, twocomp: bool)
    returns (code: int)
    requires (sign == 1 || sign == -1) && Trimmed(ds) && Whole(f, per) && words.Length == f.Size()
    modifies words
    ensures Result(f, words[..], sign * Val(ds), twocomp, code)
  {
    hide Val, Packed, Clean, BytesOf, Offset, Format.Size, Pow, Pow2, CodeOf, Image, Format.TotalBits;
    PartSizes(f, per, Offset(f.numwords, per));
    DigitsTotal(f, per);
    var n := words.Length / 4;
    var w := new Digit[n];
    var overflow := CutDigits(ds, w);
    ghost var low, p := Val(w[..]), Pow(n);
    ghost var high := if overflow then Val(ds[n..]) else 0;
    if overflow { HighDigits(ds, n); } else { FitsIn(ds, n); }
    SomeDigits(ds);
    SplitCodeIs(sign, Val(ds), low, p, high, twocomp);
    ImageOf(Val(ds), p, sign, twocomp);
    SignCases(sign, Val(ds));
    if sign < 0 && twocomp {
      var z := Span(w, 0, n);
      assert z.Digits() == w[..];
      var zero := TwoComp(z);
      assert z.Digits() == w[..];
      if zero && overflow && n == |ds| - 1 && ds[n] == 1 { overflow := false; }
    }
    Arrange(f, per, w);
    StoreDigits(words, w);
    code := if overflow then 2 * sign else sign;
  }

  lemma SignCases(sign: int, m: nat)
    requires sign == 1 || sign == -1
    ensures sign * m == if sign == 1 then m else 0 - m
  {}

  lemma FitsIn(ds: seq<Digit>, n: nat)
    requires |ds| <= n
    ensures ds[..|ds|] == ds && Val(ds) < Pow(n) && Pow(n) * 0 == 0
  {
    ValBound(ds);
    PowMonotone(|ds|, n);
  }

  lemma DigitsTotal(f: Format, per: nat)
    requires Whole(f, per)
    ensures Pow2(f.TotalBits()) == Pow(Offset(f.numwords, per))
  {
    Bitwise.PowIsPow2(Offset(f.numwords, per));
    WordBitsAre(f);
    assert f.numwords * (32 * per) == 32 * (f.numwords * per);
  }

  //----------------------------------------------------------------------------
  // A copy of the memory

  /** `bytes_2comp`. */
  method BytesComp(a: array<Byte>) returns (zero: bool)
    modifies a
    ensures zero <==> old(BytesVal(a[..])) == 0
    ensures BytesVal(a[..]) == if zero then 0 else Pow2(8 * a.Length) - old(BytesVal(a[..]))
  {
    hide BytesVal, Pow2;
    ghost var bs := a[..];
    var i := 0;
    while i < a.Length
      invariant 0 <= i <= a.Length && forall j :: 0 <= j < a.Length ==> a[j] == if j < i then 255 - bs[j] else bs[j]
    {
      a[i] := 255 - a[i];
      i := i + 1;
    }
    ghost var cs := a[..];
    Inverted(bs, cs);
    BytesBound(bs);
    i := 0;
    while i < a.Length
      invariant 0 <= i <= a.Length && forall j :: 0 <= j < a.Length ==> a[j] == if j < i then 0 else cs[j]
      invariant forall j :: 0 <= j < i ==> cs[j] == 255
    {
      a[i] := (a[i] as int + 1) % 256;
      if a[i] != 0 {
        Increment(cs, a[..], i);
        BytesBound(a[..]);
        return false;
      }
      i := i + 1;
    }
    AllOnes(cs);
    ZeroBytesVal(a[..]);
    return true;
  }

  lemma {:induction false} Inverted(bs: seq<Byte>, cs: seq<Byte>)
    requires |bs| == |cs| && forall j :: 0 <= j < |bs| ==> cs[j] == 255 - bs[j]
    ensures BytesVal(bs) + BytesVal(cs) == Pow2(8 * |bs|) - 1
    decreases |bs|
  {
    if bs != [] {
      Inverted(bs[1..], cs[1..]);
      Pow2Values();
      Pow2Add(8, 8 * (|bs| - 1));
    }
  }

  lemma {:induction false} AllOnes(cs: seq<Byte>)
    requires forall j :: 0 <= j < |cs| ==> cs[j] == 255
    ensures BytesVal(cs) == Pow2(8 * |cs|) - 1
    decreases |cs|
  {
    if cs != [] {
      AllOnes(cs[1..]);
      Pow2Values();
      Pow2Add(8, 8 * (|cs| - 1));
    }
  }

  /** One more: the bytes 255 become 0, the first other byte is incremented. */
  lemma {:induction false} Increment(cs: seq<Byte>, bs: seq<Byte>, i: nat)
    requires |cs| == |bs| && i < |cs| && cs[i] < 255 && (forall j :: 0 <= j < i ==> cs[j] == 255)
    requires forall j :: 0 <= j < |cs| ==> bs[j] == if j < i then 0 else if j == i then cs[i] + 1 else cs[j]
    ensures BytesVal(bs) == BytesVal(cs) + 1
    decreases |cs|
  {
    if i == 0 {
      assert bs[1..] == cs[1..];
    } else {
      Increment(cs[1..], bs[1..], i - 1);
    }
  }

  lemma BytesDropZeros(bs: seq<Byte>, n: nat)
    requires n <= |bs| && forall i :: n <= i < |bs| ==> bs[i] == 0
    ensures BytesVal(bs) == BytesVal(bs[..n])
  {
    assert bs == bs[..n] + bs[n..];
    BytesAppend(bs[..n], bs[n..]);
    ZeroBytesVal(bs[n..]);
    Timeless(Pow2(8 * n));
  }

  lemma {:induction false} BytesPositive(bs: seq<Byte>)
    requires bs != [] && bs[|bs| - 1] != 0
    ensures BytesVal(bs) > 0 && (BytesVal(bs) == 1 <==> bs == [1])
    decreases |bs|
  {
    if |bs| == 1 {
      assert bs[1..] == [];
    } else {
      BytesPositive(bs[1..]);
    }
  }

  lemma HighBytes(bs: seq<Byte>, n: nat)
    requires n < |bs| && bs[|bs| - 1] != 0
    ensures var high := BytesVal(bs[n..]);
            BytesVal(bs) == BytesVal(bs[..n]) + Pow2(8 * n) * high && high > 0
            && (high == 1 <==> n == |bs| - 1 && bs[n] == 1)
  {
    hide BytesVal, Pow2;
    var high := bs[n..];
    assert |high| == |bs| - n && high[0] == bs[n] && high[|high| - 1] == bs[|bs| - 1];
    assert bs == bs[..n] + high;
    BytesAppend(bs[..n], high);
    BytesPositive(high);
    assert high == [1] <==> |high| == 1 && high[0] == 1;
  }

  /** The bytes of a number in memory, without the zeros at the end. */
  method MemoryOf(ds: seq<Digit>) returns (src: seq<Byte>)
    requires Trimmed(ds)
    ensures BytesVal(src) == Val(ds) > 0 && (src != [] ==> src[|src| - 1] != 0)
  {
    hide BytesVal, Val, BytesOf;
    var bs := BytesOf(ds);
    BytesOfVal(ds);
    SomeDigits(ds);
    var srcSize := |bs|;
    while 0 < srcSize && bs[srcSize - 1] == 0
      invariant 0 <= srcSize <= |bs| && forall i :: srcSize <= i < |bs| ==> bs[i] == 0
    {
      srcSize := srcSize - 1;
    }
    BytesDropZeros(bs, srcSize);
    src := bs[..srcSize];
  }

  /** A number in a buffer of bytes; what does not fit is cut off. */
  method CutBytes(src: seq<Byte>, words: array<Byte>) returns (overflow: bool)
    modifies words
    ensures overflow <==> |src| > words.Length
    ensures BytesVal(words[..]) == BytesVal(src[..if overflow then words.Length else |src|])
  {
    hide BytesVal;
    var n := if |src| <= words.Length then |src| else words.Length;
    forall i | 0 <= i < words.Length { words[i] := if i < n then src[i] else 0; }
    overflow := |src| > words.Length;
    BytesDropZeros(words[..], n);
    assert words[..][..n] == src[..n];
  }

  /** The order of the machine. */
  method PackCopy(sign: int, ds: seq<Digit>, f: Format, words: array<Byte>, twocomp: bool) returns (code: int)
    requires (sign == 1 || sign == -1) && Trimmed(ds) && f.Valid() && f.nails == 0 && !f.msword && !f.msbyte
             && words.Length == f.Size()
    modifies words
    ensures Result(f, words[..], sign * Val(ds), twocomp, code)
  {
    hide Val, Packed, Clean, BytesVal, Format.Size, Pow2, CodeOf, Image, Format.TotalBits;
    var src := MemoryOf(ds);
    var dstSize := words.Length;
    var overflow := CutBytes(src, words);
    BytesTotal(f);
    ghost var low, p := BytesVal(words[..]), Pow2(8 * dstSize);
    ghost var high := if overflow then BytesVal(src[dstSize..]) else 0;
    BytesBound(words[..]);
    if overflow {
      HighBytes(src, dstSize);
    } else {
      assert src[..|src|] == src;
      Timeless(p);
    }
    SplitCodeIs(sign, Val(ds), low, p, high, twocomp);
    ImageOf(Val(ds), p, sign, twocomp);
    SignCases(sign, Val(ds));
    if sign < 0 && twocomp {
      var zero := BytesComp(words);
      if zero && overflow {
        if dstSize == |src| - 1 && src[dstSize] == 1 { overflow := false; }
      }
    }
    MachineOrder(f, words[..]);
    code := if overflow then 2 * sign else sign;
  }

  lemma BytesTotal(f: Format)
    requires f.Valid() && f.nails == 0
    ensures f.TotalBits() == 8 * f.Size()
  {
    assert f.numwords * (8 * f.wordsize) == 8 * (f.numwords * f.wordsize);
  }

  lemma MachineOrder(f: Format, bs: seq<Byte>)
    requires f.Valid() && f.nails == 0 && !f.msword && !f.msbyte && |bs| == f.Size()
    ensures Packed(f, bs, f.numwords) == BytesVal(bs) && Clean(f, bs, f.numwords)
  {
    PlainPacked(f, bs, f.numwords);
    LittleEndian(f, bs, f.numwords);
    assert f.wordsize * f.numwords == f.Size();
    assert bs[..f.wordsize * f.numwords] == bs;
  }

  //----------------------------------------------------------------------------
  // One word of a size the machine knows

  predicate Native(f: Format)
  {
    f.Valid() && f.nails == 0 && f.numwords == 1 && (f.wordsize == 1 || f.wordsize == 2 || f.wordsize == 4)
  }

  /** `swap16` and `swap32`. */
  function SwapNative(u: Digit, size: nat): Digit
  {
    if size == 2 then FromBytes(DigitBytes(u)[1], DigitBytes(u)[0], 0, 0) else SwapDigit(u)
  }

  /** The word in the order asked for. */
  method StoreNative(f: Format, words: array<Byte>, u: Digit)
    requires Native(f) && words.Length == f.wordsize && u < Pow2(8 * f.wordsize)
    modifies words
    ensures words.Length == f.Size() && Packed(f, words[..], 1) == u && Clean(f, words[..], 1)
  {
    hide DigitBytes, SwapDigit, FromBytes, Pow2, Packed, Clean;
    var needSwap := f.wordsize != 1 && f.msbyte;
    var bs := DigitBytes(if needSwap then SwapNative(u, f.wordsize) else u);
    forall i | 0 <= i < f.wordsize { words[i] := bs[i]; }
    assert words[..] == bs[..f.wordsize];
    NativeWord(f, u, words[..]);
  }

  lemma NativeWord(f: Format, u: Digit, ws: seq<Byte>)
    requires Native(f) && u < Pow2(8 * f.wordsize)
    requires ws == DigitBytes(if f.wordsize != 1 && f.msbyte then SwapNative(u, f.wordsize) else u)[..f.wordsize]
    ensures |ws| == f.Size() && Packed(f, ws, 1) == u && Clean(f, ws, 1)
  {
    hide DigitBytes, SwapNative, Packed, Clean, BytesVal, Pow2, Word, Rev;
    NativeOrder(u, f.wordsize, f.msbyte, ws);
    WordSlice(f, ws, 0, 0);
    assert ws[0..f.wordsize] == ws;
    LowBytes(u, f.wordsize);
    OneWord(f, ws);
  }

  lemma NativeOrder(u: Digit, size: nat, msbyte: bool, ws: seq<Byte>)
    requires size == 1 || size == 2 || size == 4
    requires ws == DigitBytes(if size != 1 && msbyte then SwapNative(u, size) else u)[..size]
    ensures (if msbyte then Rev(ws) else ws) == DigitBytes(u)[..size]
  {
    hide DigitBytes, SwapDigit, FromBytes;
    var bs := DigitBytes(u);
    if msbyte {
      if size == 2 {
        BytesBack(bs[1], bs[0], 0, 0);
        assert ws == [bs[1], bs[0]];
      } else if size == 4 {
        SwapBytes(u);
        RevRev(bs);
      }
    }
  }

  lemma OneWord(f: Format, ws: seq<Byte>)
    requires f.Valid() && f.nails == 0 && f.numwords == 1 && |ws| == f.Size()
    ensures Packed(f, ws, 1) == BytesVal(Word(f, ws, 0)) && Clean(f, ws, 1)
  {
    PlainPacked(f, ws, 1);
    assert Logical(f, ws, 1) == Logical(f, ws, 0) + Word(f, ws, 0) == Word(f, ws, 0);
  }

  lemma LowBytes(u: Digit, size: nat)
    requires size <= 4 && u < Pow2(8 * size)
    ensures BytesVal(DigitBytes(u)[..size]) == u
  {
    hide BytesVal;
    Pow2Values();
    Pow2Add(8, 8);
    Pow2Add(16, 8);
    var bs := DigitBytes(u);
    assert size <= 3 ==> bs[3] == 0;
    assert size <= 2 ==> bs[2] == 0;
    assert size <= 1 ==> bs[1] == 0;
    assert size == 0 ==> bs[0] == 0;
    DigitBytesVal(u);
    BytesDropZeros(bs, size);
  }

  /** `CLEAR_LOWBITS` and `FILL_LOWBITS`. */
  function ClearLowbits(d: int, n: nat): int { d - d % Pow2(n) }

  function FillLowbits(d: int, n: nat): int { d - d % Pow2(n) + (Pow2(n) - 1) }

  lemma LowbitsMean(d: nat, n: nat)
    ensures ClearLowbits(d, n) != 0 <==> d >= Pow2(n)
    ensures FillLowbits(0 - d, n) == -1 <==> 0 < d <= Pow2(n)
  {
    hide Pow2;
    ClearMeans(d, Pow2(n));
    FillMeans(d, Pow2(n));
  }

  lemma ClearMeans(d: nat, p: nat)
    requires p > 0
    ensures d - d % p != 0 <==> d >= p
  {
    if d < p { DivModUnique(d, p, 0, d); }
  }

  lemma FillMeans(d: nat, p: nat)
    requires p > 0
    ensures (0 - d) - (0 - d) % p + (p - 1) == -1 <==> 0 < d <= p
  {
    if 0 < d <= p { DivModUnique(0 - d, p, -1, p - d); }
  }

  /** What the first digit tells. */
  lemma FirstDigit(ds: seq<Digit>, p: nat, q: nat)
    requires Trimmed(ds) && p * q == 0x1_0000_0000
    ensures p > 0 && Val(ds) % p == ds[0] % p && (|ds| == 1 ==> Val(ds) == ds[0])
            && (|ds| > 1 ==> Val(ds) >= 0x1_0000_0000)
    ensures Val(ds) == 0x1_0000_0000 <==> |ds| == 2 && ds[1] == 1 && ds[0] == 0
  {
    var t := ds[1..];
    if |ds| == 1 {
      assert t == [];
    } else {
      assert t[|t| - 1] == ds[|ds| - 1];
      SomeDigits(t);
      assert t == [1] <==> |t| == 1 && t[0] == 1;
    }
    hide Val;
    assert p > 0;
    SameRemainder(ds[0], Val(t), p, q);
  }

  lemma SameRemainder(d: nat, t: nat, p: nat, q: nat)
    requires p > 0 && p * q == 0x1_0000_0000
    ensures (d + 0x1_0000_0000 * t) % p == d % p
  {
    var a, b := d / p, d % p;
    assert d == a * p + b;
    assert (p * q) * t == (q * t) * p by { Reorder(p, q, t); }
    assert a * p + (q * t) * p == (a + q * t) * p;
    DivModUnique(d + 0x1_0000_0000 * t, p, a + q * t, b);
  }

  /** The code, p being 2^n. */
  lemma SingleCode(sign: int, ds: seq<Digit>, n: nat, twocomp: bool)
    requires (sign == 1 || sign == -1) && Trimmed(ds) && n <= 32
    ensures sign > 0 || !twocomp ==>
      CodeOf(sign * Val(ds), Pow2(n), twocomp) == (if 1 < |ds| || ClearLowbits(ds[0], n) != 0 then 2 else 1) * sign
    ensures sign < 0 && twocomp ==>
      CodeOf(sign * Val(ds), Pow2(n), twocomp) ==
      if n == 32 && |ds| == 2 && ds[1] == 1 && ds[0] == 0 then -1
      else if 1 < |ds| || FillLowbits(0 - ds[0] as int, n) != -1 then -2 else -1
  {
    hide Val, ClearLowbits, FillLowbits;
    Pow2Add(n, 32 - n);
    Pow2Values();
    Pow2Monotone(n, 32);
    if n < 32 { Pow2Monotone(n + 1, 32); }
    hide Pow2;
    FirstDigit(ds, Pow2(n), Pow2(32 - n));
    LowbitsMean(ds[0], n);
    SignCases(sign, Val(ds));
    SomeDigits(ds);
  }

  /** The conversion to an unsigned type of n bits. */
  function Cast(d: int, n: nat): (u: Digit)
    requires n <= 32
    ensures u < Pow2(n)
  {
    Pow2Values();
    Pow2Monotone(n, 32);
    d % Pow2(n)
  }

  lemma SingleImage(sign: int, ds: seq<Digit>, n: nat, twocomp: bool)
    requires (sign == 1 || sign == -1) && Trimmed(ds) && n <= 32
    ensures Image(sign * Val(ds), Pow2(n), twocomp) == Cast(if sign > 0 || !twocomp then ds[0] else 0 - ds[0] as int, n)
  {
    hide Val, Image;
    Pow2Add(n, 32 - n);
    Pow2Values();
    hide Pow2;
    FirstDigit(ds, Pow2(n), Pow2(32 - n));
    SignCases(sign, Val(ds));
    SomeDigits(ds);
    ImageOf(Val(ds), Pow2(n), sign, twocomp);
    NegativeMod(ds[0], Pow2(n));
  }

  method PackSingle(sign: int, ds: seq<Digit>, f: Format, words: array<Byte>, twocomp: bool) returns (code: int)
    requires (sign == 1 || sign == -1) && Trimmed(ds) && Native(f) && words.Length == f.Size()
    modifies words
    ensures Result(f, words[..], sign * Val(ds), twocomp, code)
  {
    hide Val, Packed, Clean, Pow2, ClearLowbits, FillLowbits, CodeOf, Image, Cast;
    var n := 8 * f.wordsize;
    NativeBits(f);
    SingleCode(sign, ds, n, twocomp);
    SingleImage(sign, ds, n, twocomp);
    if 0 < sign || !twocomp {
      var d := ds[0];
      StoreNative(f, words, Cast(d, n));
      code := (if 1 < |ds| || ClearLowbits(d, n) != 0 then 2 else 1) * sign;
    } else {
      var d: SDigit := 0 - ds[0] as int;
      StoreNative(f, words, Cast(d, n));
      code := if f.wordsize == 4 && |ds| == 2 && ds[1] == 1 && ds[0] == 0 then -1
              else if 1 < |ds| || FillLowbits(d, n) != -1 then -2 else -1;
    }
  }

  lemma NativeBits(f: Format)
    requires Native(f)
    ensures f.TotalBits() == 8 * f.wordsize && f.Size() == f.wordsize
    ensures Pow2(8 * f.wordsize) <= 0x1_0000_0000 && (Pow2(8 * f.wordsize) == 0x1_0000_0000 <==> f.wordsize == 4)
  {
    Pow2Values();
    Pow2Add(8, 8);
  }

  lemma NegativeMod(d: nat, p: nat)
    requires p > 0
    ensures (0 - d) % p == if d % p == 0 then 0 else p - d % p
  {
    ImageOf(d, p, -1, true);
    if d == 0 { DivModUnique(0, p, 0, 0); }
  }

  //----------------------------------------------------------------------------
  // All of bary_pack

  /** `bary_pack`: `generic` is `INTEGER_PACK_FORCE_GENERIC_IMPLEMENTATION`; `aligned` tells
      whether the buffer may be used as an array of machine words. */
  method BaryPack(sign: int, digits: seq<Digit>, f: Format, words: array<Byte>, twocomp: bool, generic: bool,
                  aligned: bool) returns (code: int)
    requires (sign == 1 || sign == -1) && f.Valid() && words.Length == f.Size()
    modifies words
    ensures Result(f, words[..], sign * Val(digits), twocomp, code)
  {
    hide Val, Packed, Clean, Pow2, CodeOf, Image, Format.Size, Format.TotalBits, BytesOf;
    if !generic {
      var ds := Bitwise.Trunc(digits);
      SomeDigits(ds);
      if ds == [] {
        ClearWords(f, words);
        ZeroResult(sign, Pow2(f.TotalBits()), twocomp);
        return 0;
      }
      if f.nails == 0 && f.numwords == 1 && (f.wordsize == 1 || ((f.wordsize == 2 || f.wordsize == 4) && aligned)) {
        code := PackSingle(sign, ds, f, words, twocomp);
        return;
      }
      if f.nails == 0 && !f.msword && !f.msbyte {
        code := PackCopy(sign, ds, f, words, twocomp);
        return;
      }
      if f.nails == 0 && f.wordsize % 4 == 0 && aligned {
        code := PackDigits(sign, ds, f, f.wordsize / 4, words, twocomp);
        return;
      }
    }
    code := GenericPack(sign, digits, f, words, twocomp);
  }

  lemma ZeroResult(sign: int, p: nat, twocomp: bool)
    requires p > 0 && (sign == 1 || sign == -1)
    ensures CodeOf(sign * 0, p, twocomp) == 0 && Image(sign * 0, p, twocomp) == 0
  {
    DivModUnique(0, p, 0, 0);
  }
}

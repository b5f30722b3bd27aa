/**
 * Writing an integer as bytes: the general part of `bary_pack`.
 */
module Pack {
  import opened Bits
  import opened Digits
  import opened PackFormat
  import Bitwise

  //----------------------------------------------------------------------------
  // The bits of a number, taken from the low end

  /** `dp`, `de`, `dd` and `numbits_in_dd`. */
  class BitSource {
    const ds: seq<Digit>
    var dp: nat
    var dd: DDigit
    var bits: nat

    ghost predicate Valid()
      reads this
    {
      dp <= |ds| && bits <= 64 && dd < Pow2(bits) && (dp < |ds| ==> ds[|ds| - 1] != 0)
    }

    /** The number not yet taken. */
    ghost function Rest(): nat
      requires Valid()
      reads this
    {
      dd + Pow2(bits) * Val(ds[dp..])
    }

    constructor (digits: seq<Digit>)
      requires digits != [] ==> digits[|digits| - 1] != 0
      ensures Valid() && ds == digits && Rest() == Val(digits)
    {
      ds := digits;
      dp, dd, bits := 0, 0, 0;
      new;
      assert digits[0..] == digits;
    }

    /** `integer_pack_fill_dd`. */
    method Fill()
      requires Valid()
      modifies this
      ensures Valid() && Rest() == old(Rest()) && 32 <= bits
      ensures dp == |ds| ==> Rest() == dd
    {
      hide Val, Pow2;
      if dp < |ds| && 32 <= 64 - bits {
        FillValue(ds, dp, dd, bits);
        dd := Or(dd, ds[dp] * Pow2(bits));
        bits := bits + 32;
        dp := dp + 1;
      } else if dp == |ds| {
        NothingLeft(ds, Pow2(bits), Pow2(64));
        LessBits(bits);
        bits := 64;
      }
      if dp == |ds| { NothingLeft(ds, Pow2(bits), Pow2(64)); }
    }

    /** `integer_pack_take_lowbits`. */
    method TakeLowbits(n: nat) returns (r: nat)
      requires Valid() && n <= bits
      modifies this
      ensures Valid() && r == old(Rest()) % Pow2(n) && Rest() == old(Rest()) / Pow2(n)
    {
      hide Val, Pow2;
      TakeValue(dd, bits, n, Val(ds[dp..]));
      AndMask(dd, n);
      DivSmaller(dd, Pow2(n));
      r := And(dd, Pow2(n) - 1);
      dd := dd / Pow2(n);
      bits := bits - n;
    }

    /** Both, as the macros are always used. */
    method Take(n: nat) returns (r: nat)
      requires Valid() && n <= 8
      modifies this
      ensures Valid() && r == old(Rest()) % Pow2(n) && r < Pow2(n) && Rest() == old(Rest()) / Pow2(n)
    {
      hide Val, Pow2;
      Fill();
      r := TakeLowbits(n);
    }
  }

  lemma FillValue(ds: seq<Digit>, dp: nat, dd: nat, bits: nat)
    requires dp < |ds| && bits <= 32 && dd < Pow2(bits)
    ensures var e := Or(dd, ds[dp] * Pow2(bits));
            e == dd + ds[dp] * Pow2(bits) < Pow2(bits + 32) <= Pow2(64) == 0x1_0000_0000_0000_0000
    ensures Or(dd, ds[dp] * Pow2(bits)) + Pow2(bits + 32) * Val(ds[dp + 1..]) == dd + Pow2(bits) * Val(ds[dp..])
  {
    OrIsSum(dd, ds[dp], bits);
    Pow2Values();
    Pow2Add(32, 32);
    Pow2Add(bits, 32);
    Pow2Monotone(bits + 32, 64);
    assert Val(ds[dp..]) == ds[dp] + 0x1_0000_0000 * Val(ds[dp + 1..]) by {
      assert ds[dp..][1..] == ds[dp + 1..];
    }
    hide Pow2, Val, Or;
    FillAlgebra(dd, ds[dp], Pow2(bits), Val(ds[dp + 1..]));
    FillBound(dd, ds[dp], Pow2(bits));
  }

  lemma FillAlgebra(dd: int, d: int, p: int, v: int)
    ensures (dd + d * p) + (p * 0x1_0000_0000) * v == dd + p * (d + 0x1_0000_0000 * v)
  {}

  lemma FillBound(dd: nat, d: Digit, p: nat)
    requires dd < p
    ensures dd + d * p < p * 0x1_0000_0000
  {
    MulMonotone(d, 0xFFFF_FFFF, p);
  }

  lemma NothingLeft(ds: seq<Digit>, p: nat, q: nat)
    ensures p * Val(ds[|ds|..]) == q * Val(ds[|ds|..]) == 0
  {
    assert ds[|ds|..] == [];
  }

  lemma LessBits(bits: nat)
    requires bits <= 64
    ensures Pow2(bits) <= Pow2(64)
  {
    Pow2Monotone(bits, 64);
  }

  lemma TakeValue(dd: nat, bits: nat, n: nat, v: nat)
    requires dd < Pow2(bits) && n <= bits
    ensures var r := dd + Pow2(bits) * v;
            r % Pow2(n) == dd % Pow2(n) && r / Pow2(n) == dd / Pow2(n) + Pow2(bits - n) * v
            && dd / Pow2(n) < Pow2(bits - n)
  {
    Pow2Add(n, bits - n);
    hide Pow2;
    TakeAlgebra(dd, Pow2(n), Pow2(bits - n), v);
  }

  lemma TakeAlgebra(dd: nat, p: nat, q: nat, v: nat)
    requires p > 0 && dd < p * q
    ensures var r := dd + (p * q) * v; r % p == dd % p && r / p == dd / p + q * v && dd / p < q
  {
    var a, b := dd / p, dd % p;
    assert dd == a * p + b;
    assert (p * q) * v == (q * v) * p by { Reorder(p, q, v); }
    assert a * p + (q * v) * p == (a + q * v) * p;
    DivModUnique(dd + (p * q) * v, p, a + q * v, b);
    if a >= q { MulMonotone(q, a, p); }
  }

  lemma Reorder(p: int, q: int, v: int)
    ensures (p * q) * v == (q * v) * p
  {}

  //----------------------------------------------------------------------------
  // One word

  /** `integer_pack_loop_setup`. */
  method LoopSetup(f: Format)
    returns (fullBytes: nat, partialBits: nat, wordStart: nat, wordStep: int, wordLast: nat, byteStart: nat,
             byteStep: int)
    requires f.Valid() && f.numwords > 0
    ensures fullBytes == f.Full() && partialBits == f.Partial()
    ensures wordStart == f.WordStart(0) && wordLast == f.WordStart(f.numwords - 1)
    ensures wordStep == if f.msword then 0 - f.wordsize else f.wordsize
    ensures byteStart == Spot(f, 0, 0) && byteStep == if f.msbyte then -1 else 1
  {
    partialBits := 8 - f.nails % 8;
    if partialBits == 8 { partialBits := 0; }
    fullBytes := f.wordsize - f.nails / 8;
    if partialBits != 0 { fullBytes := fullBytes - 1; }
    if f.msword {
      MulMonotone(0, f.numwords - 1, f.wordsize);
      wordStart, wordStep, wordLast := f.wordsize * (f.numwords - 1), 0 - f.wordsize, 0;
    } else {
      MulMonotone(0, f.numwords - 1, f.wordsize);
      wordStart, wordStep, wordLast := 0, f.wordsize, f.wordsize * (f.numwords - 1);
    }
    if f.msbyte {
      byteStart, byteStep := f.wordsize - 1, -1;
    } else {
      byteStart, byteStep := 0, 1;
    }
  }

  lemma StepWord(f: Format, k: nat)
    requires f.Valid() && k + 1 < f.numwords
    ensures f.WordStart(k + 1) == f.WordStart(k) + if f.msword then 0 - f.wordsize else f.wordsize
    ensures f.WordStart(k) != f.WordStart(f.numwords - 1)
  {
    Apart(f, k, f.numwords - 1);
    assert (k + 1) * f.wordsize == k * f.wordsize + f.wordsize;
    assert (f.numwords - 1 - k) * f.wordsize == (f.numwords - 2 - k) * f.wordsize + f.wordsize;
  }

  /** Where byte b of the word at wordp is. */
  function Spot(f: Format, wordp: nat, b: nat): int { wordp + if f.msbyte then f.wordsize - 1 - b else b }

  /** A buffer with the first bytes of the word at wordp replaced by c. */
  function Overlay(f: Format, bs: seq<Byte>, wordp: nat, c: seq<Byte>): (r: seq<Byte>)
    requires wordp + f.wordsize <= |bs| && |c| <= f.wordsize
    ensures |r| == |bs|
  {
    seq(|bs|, j requires 0 <= j < |bs| =>
      var b := if f.msbyte then wordp + f.wordsize - 1 - j else j - wordp;
      if 0 <= b < |c| then c[b] else bs[j])
  }

  lemma NothingOver(f: Format, bs: seq<Byte>, wordp: nat)
    requires wordp + f.wordsize <= |bs|
    ensures Overlay(f, bs, wordp, []) == bs
  {}

  lemma OneOver(f: Format, bs: seq<Byte>, wordp: nat, c: seq<Byte>, x: Byte)
    requires wordp + f.wordsize <= |bs| && |c| < f.wordsize
    ensures 0 <= Spot(f, wordp, |c|) < |bs|
    ensures Overlay(f, bs, wordp, c + [x]) == Overlay(f, bs, wordp, c)[Spot(f, wordp, |c|) := x]
  {}

  /** The bytes c have been taken from r0, leaving r. */
  ghost predicate Taken(f: Format, c: seq<Byte>, r: nat, r0: nat)
    requires f.Valid()
  {
    CleanWord(f, c) && WordValue(f, c) + Pow2(f.BitsTo(|c|)) * r == r0
  }

  lemma NoneTaken(f: Format, r: nat)
    requires f.Valid()
    ensures Taken(f, [], r, r)
  {}

  lemma OneTaken(f: Format, c: seq<Byte>, r: nat, r0: nat, x: Byte)
    requires f.Valid() && Taken(f, c, r, r0) && x == r % Pow2(f.Width(|c|))
    ensures Taken(f, c + [x], r / Pow2(f.Width(|c|)), r0)
  {
    var p, w := Pow2(f.BitsTo(|c|)), Pow2(f.Width(|c|));
    WordSnoc(f, c, x);
    NextBits(f, |c|);
    Pow2Add(f.BitsTo(|c|), f.Width(|c|));
    hide WordValue, Pow2;
    DivModUnique(x, w, 0, x);
    TakenAlgebra(p, w, r);
  }

  lemma TakenAlgebra(p: nat, w: nat, r: nat)
    requires w > 0
    ensures p * (r % w) + (p * w) * (r / w) == p * r
  {
    var q, m := r / w, r % w;
    assert r == w * q + m;
    assert (p * w) * q == p * (w * q);
  }

  lemma AllTaken(f: Format, c: seq<Byte>, r: nat, r0: nat)
    requires f.Valid() && Taken(f, c, r, r0) && |c| == f.wordsize
    ensures WordValue(f, c) + Pow2(f.WordBits()) * r == r0 && CleanWord(f, c)
  {
    WordBitsAre(f);
  }

  /** One byte of a word. */
  method PutByte(f: Format, src: BitSource, words: array<Byte>, ghost bs: seq<Byte>, ghost wordp: nat,
                 ghost c: seq<Byte>, ghost r0: nat, n: nat, bytep: int)
    returns (ghost c': seq<Byte>)
    requires f.Valid() && src.Valid() && wordp + f.wordsize <= |bs| && |c| < f.wordsize && n == f.Width(|c|)
             && bytep == Spot(f, wordp, |c|)
    requires words[..] == Overlay(f, bs, wordp, c) && Taken(f, c, src.Rest(), r0)
    modifies src, words
    ensures src.Valid() && |c'| == |c| + 1 && words[..] == Overlay(f, bs, wordp, c') && Taken(f, c', src.Rest(), r0)
  {
    hide Pow2, Taken, WordValue, CleanWord, Overlay, BitSource.Rest, BitSource.Valid;
    OneTakenAhead(f, c, src.Rest(), r0);
    var x := 0;
    if n > 0 {
      x := src.Take(n);
    } else {
      PowNothing(src.Rest());
    }
    c' := c + [x];
    OneOver(f, bs, wordp, c, x);
    words[bytep] := x;
  }

  lemma PowNothing(r: nat)
    ensures Pow2(0) == 1 && r % 1 == 0 && r / 1 == r
  {}

  /** The inner part of the loop over the words. */
  method PackWord(f: Format, src: BitSource, words: array<Byte>, wordp: nat, fullBytes: nat, partialBits: nat,
                  byteStart: nat, byteStep: int) returns (ghost c: seq<Byte>)
    requires f.Valid() && src.Valid() && wordp + f.wordsize <= words.Length
    requires fullBytes == f.Full() && partialBits == f.Partial() && byteStart == Spot(f, 0, 0)
             && byteStep == if f.msbyte then -1 else 1
    modifies src, words
    ensures src.Valid() && |c| == f.wordsize && words[..] == Overlay(f, old(words[..]), wordp, c) && CleanWord(f, c)
    ensures WordValue(f, c) + Pow2(f.WordBits()) * src.Rest() == old(src.Rest())
  {
    hide Pow2, Taken, WordValue, CleanWord, Overlay, BitSource.Rest, BitSource.Valid;
    ghost var bs, r0 := words[..], src.Rest();
    c := [];
    NoneTaken(f, r0);
    NothingOver(f, bs, wordp);
    WordBitsAre(f);
    var index := 0;
    var bytep: int := wordp + byteStart;
    while index < fullBytes
      invariant index == |c| <= fullBytes && bytep == Spot(f, wordp, index) && words[..] == Overlay(f, bs, wordp, c)
      invariant src.Valid() && Taken(f, c, src.Rest(), r0)
    {
      c := PutByte(f, src, words, bs, wordp, c, r0, 8, bytep);
      bytep := bytep + byteStep;
      index := index + 1;
    }
    if partialBits != 0 {
      c := PutByte(f, src, words, bs, wordp, c, r0, partialBits, bytep);
      bytep := bytep + byteStep;
      index := index + 1;
    }
    while index < f.wordsize
      invariant f.BitsTo(index) == f.WordBits() && f.Width(index) == 0
      invariant index == |c| <= f.wordsize && bytep == Spot(f, wordp, index) && words[..] == Overlay(f, bs, wordp, c)
      invariant src.Valid() && Taken(f, c, src.Rest(), r0)
    {
      c := PutByte(f, src, words, bs, wordp, c, r0, 0, bytep);
      bytep := bytep + byteStep;
      index := index + 1;
    }
    AllTaken(f, c, src.Rest(), r0);
  }

  lemma OneTakenAhead(f: Format, c: seq<Byte>, r: nat, r0: nat)
    requires f.Valid() && Taken(f, c, r, r0)
    ensures var w := Pow2(f.Width(|c|)); w <= 256 && Taken(f, c + [r % w], r / w, r0)
  {
    Pow2Monotone(f.Width(|c|), 8);
    Pow2Values();
    OneTaken(f, c, r, r0, r % Pow2(f.Width(|c|)));
  }

  //----------------------------------------------------------------------------
  // All words

  /** One word is replaced, and no other. */
  lemma WordOver(f: Format, bs: seq<Byte>, k: nat, c: seq<Byte>)
    requires f.Valid() && |bs| == f.Size() && k < f.numwords && |c| == f.wordsize
    ensures f.WordStart(k) + f.wordsize <= |bs|
    ensures var cs := Overlay(f, bs, f.WordStart(k), c);
            Word(f, cs, k) == c && forall j :: 0 <= j < f.numwords && j != k ==> Word(f, cs, j) == Word(f, bs, j)
  {
    Inside(f, k);
    var cs := Overlay(f, bs, f.WordStart(k), c);
    assert Word(f, cs, k) == c;
    forall j | 0 <= j < f.numwords && j != k ensures Word(f, cs, j) == Word(f, bs, j) {
      Inside(f, j);
      if j < k { Apart(f, j, k); } else { Apart(f, k, j); }
    }
  }

  /** The first k words hold the low bits of r0; r is left. */
  ghost predicate Done(f: Format, bs: seq<Byte>, k: nat, r: nat, r0: nat)
    requires f.Valid() && |bs| == f.Size() && k <= f.numwords
  {
    Clean(f, bs, k) && Packed(f, bs, k) + Pow2(f.WordBits() * k) * r == r0
  }

  lemma NoneDone(f: Format, bs: seq<Byte>, r: nat)
    requires f.Valid() && |bs| == f.Size()
    ensures Done(f, bs, 0, r, r)
  {
    assert f.WordBits() * 0 == 0;
  }

  lemma OneDone(f: Format, bs: seq<Byte>, k: nat, r: nat, r0: nat, c: seq<Byte>, r': nat)
    requires f.Valid() && |bs| == f.Size() && k < f.numwords && |c| == f.wordsize && CleanWord(f, c)
    requires Done(f, bs, k, r, r0) && WordValue(f, c) + Pow2(f.WordBits()) * r' == r
             && f.WordStart(k) + f.wordsize <= |bs|
    ensures Done(f, Overlay(f, bs, f.WordStart(k), c), k + 1, r', r0)
  {
    hide WordValue, Pow2, CleanWord, Overlay, Format.WordStart, Format.Size;
    WordOver(f, bs, k, c);
    var cs := Overlay(f, bs, f.WordStart(k), c);
    PackedSame(f, bs, cs, k);
    WordUp(f, k);
    DoneAlgebra(Pow2(f.WordBits() * k), Pow2(f.WordBits()), WordValue(f, c), r');
  }

  lemma DoneAlgebra(p: int, w: int, v: int, r: int)
    ensures p * (v + w * r) == p * v + (p * w) * r
  {}

  lemma AllDone(f: Format, bs: seq<Byte>, r: nat, r0: nat)
    requires f.Valid() && |bs| == f.Size() && Done(f, bs, f.numwords, r, r0)
    ensures Clean(f, bs, f.numwords) && Packed(f, bs, f.numwords) + Pow2(f.TotalBits()) * r == r0
  {
    assert f.WordBits() * f.numwords == f.TotalBits();
  }

  lemma Divided(v: nat, p: nat, r: nat, r0: nat)
    requires v < p && v + p * r == r0
    ensures v == r0 % p && r == r0 / p
  {
    assert p * r == r * p;
    DivModUnique(r0, p, r, v);
  }

  /** The loop over the words. */
  method PackWords(f: Format, src: BitSource, words: array<Byte>)
    requires f.Valid() && src.Valid() && f.numwords > 0 && words.Length == f.Size()
    modifies src, words
    ensures src.Valid() && Clean(f, words[..], f.numwords)
    ensures Packed(f, words[..], f.numwords) + Pow2(f.TotalBits()) * src.Rest() == old(src.Rest())
  {
    hide Pow2, Done, Packed, WordValue, CleanWord, Clean, Overlay, Format.WordStart, Format.Size, BitSource.Rest,
         BitSource.Valid;
    var fullBytes, partialBits, wordStart, wordStep, wordLast, byteStart, byteStep := LoopSetup(f);
    ghost var r0 := src.Rest();
    ghost var k := 0;
    var wordp := wordStart;
    NoneDone(f, words[..], r0);
    while true
      invariant k < f.numwords && wordp == f.WordStart(k) && src.Valid() && Done(f, words[..], k, src.Rest(), r0)
      decreases f.numwords - k
    {
      Inside(f, k);
      ghost var bs, r := words[..], src.Rest();
      ghost var c := PackWord(f, src, words, wordp, fullBytes, partialBits, byteStart, byteStep);
      OneDone(f, bs, k, r, r0, c, src.Rest());
      if wordp == wordLast {
        LastWord(f, k);
        k := k + 1;
        break;
      }
      StepWord(f, k);
      wordp := wordp + wordStep;
      k := k + 1;
    }
    AllDone(f, words[..], src.Rest(), r0);
  }

  lemma LastWord(f: Format, k: nat)
    requires f.Valid() && k < f.numwords && f.WordStart(k) == f.WordStart(f.numwords - 1)
    ensures k == f.numwords - 1
  {
    if k < f.numwords - 1 { Apart(f, k, f.numwords - 1); }
  }

  //----------------------------------------------------------------------------
  // Two's complement of the words

  /** The bytes c are those of c0 complemented, plus the carry c1; carry is left. */
  ghost predicate Complemented(f: Format, c0: seq<Byte>, c: seq<Byte>, carry: nat, c1: nat)
    requires f.Valid() && |c| <= |c0|
  {
    && CleanWord(f, c) && carry <= 1
    && WordValue(f, c) + Pow2(f.BitsTo(|c|)) * carry + WordValue(f, c0[..|c|]) == c1 + Pow2(f.BitsTo(|c|)) - 1
  }

  lemma NoneComplemented(f: Format, c0: seq<Byte>, c1: nat)
    requires f.Valid() && c1 <= 1
    ensures Complemented(f, c0, [], c1, c1)
  {
    assert c0[..0] == [];
  }

  lemma OneComplemented(f: Format, c0: seq<Byte>, c: seq<Byte>, carry: nat, c1: nat, w: nat, x: Byte, carry': nat)
    requires f.Valid() && |c| < |c0| && Complemented(f, c0, c, carry, c1) && w == Pow2(f.Width(|c|))
    requires x < w && carry' <= 1 && carry + (w - 1 - Used(f, |c|, c0[|c|])) == carry' * w + x
    ensures Complemented(f, c0, c + [x], carry', c1)
  {
    var b := |c|;
    assert c0[..b + 1] == c0[..b] + [c0[b]];
    WordSnoc(f, c0[..b], c0[b]);
    WordSnoc(f, c, x);
    NextBits(f, b);
    Pow2Add(f.BitsTo(b), f.Width(b));
    DivModUnique(x, w, 0, x);
    hide WordValue, Pow2, Format.BitsTo, Format.Width;
    ComplementAlgebra(Pow2(f.BitsTo(b)), w, Used(f, b, c0[b]), carry, x, carry');
  }

  lemma CarryOut(t: nat, w: nat)
    requires 0 < w && t <= w
    ensures 0 <= t / w <= 1 && 0 <= t % w < w && t == t / w * w + t % w
  {
    if t < w { DivModUnique(t, w, 0, t); } else { DivModUnique(t, w, 1, 0); }
  }

  lemma ComplementAlgebra(p: int, w: int, u: int, carry: int, x: int, carry': int)
    requires carry + (w - 1 - u) == carry' * w + x
    ensures p * x + (p * w) * carry' + p * u - p * w == p * carry - p
  {
    assert p * (carry + (w - 1 - u)) == p * (carry' * w + x);
    assert (p * w) * carry' == p * (carry' * w);
  }

  /** One byte of a word. */
  method ComplementByte(f: Format, words: array<Byte>, ghost bs: seq<Byte>, ghost wordp: nat, ghost c0: seq<Byte>,
                        ghost c: seq<Byte>, ghost c1: nat,
                        carry: nat, n: nat, bytep: int) returns (carry': nat, ghost c': seq<Byte>)
    requires f.Valid() && wordp + f.wordsize <= |bs| && |c| < |c0| == f.wordsize && n == f.Width(|c|)
             && bytep == Spot(f, wordp, |c|)
    requires words[..] == Overlay(f, bs, wordp, c) && Complemented(f, c0, c, carry, c1) && bs[bytep] == c0[|c|]
    modifies words
    ensures |c'| == |c| + 1 && words[..] == Overlay(f, bs, wordp, c') && Complemented(f, c0, c', carry', c1)
  {
    SpotUntouched(f, bs, wordp, c);
    hide Pow2, Complemented, Overlay;
    var mask := Pow2(n) - 1;
    AndMask(words[bytep], n);
    CarrySmall(f, c0, c, carry, c1);
    var t := carry + (mask - And(words[bytep], mask));
    AndMask(t, n);
    CarryOut(t, Pow2(n));
    var x := And(t, mask);
    carry' := t / Pow2(n);
    OneComplemented(f, c0, c, carry, c1, Pow2(n), x, carry');
    OneOver(f, bs, wordp, c, x);
    words[bytep] := x;
    c' := c + [x];
  }

  lemma CarrySmall(f: Format, c0: seq<Byte>, c: seq<Byte>, carry: nat, c1: nat)
    requires f.Valid() && |c| <= |c0| && Complemented(f, c0, c, carry, c1)
    ensures carry <= 1 && Pow2(f.Width(|c|)) <= 256
  {
    Pow2Monotone(f.Width(|c|), 8);
    Pow2Values();
  }

  lemma SpotUntouched(f: Format, bs: seq<Byte>, wordp: nat, c: seq<Byte>)
    requires wordp + f.wordsize <= |bs| && |c| < f.wordsize
    ensures 0 <= Spot(f, wordp, |c|) < |bs| && Overlay(f, bs, wordp, c)[Spot(f, wordp, |c|)] == bs[Spot(f, wordp, |c|)]
  {}

  /** The inner part of the loop over the words. */
  method ComplementWord(f: Format, words: array<Byte>, wordp: nat, fullBytes: nat, partialBits: nat, byteStart: nat,
                        byteStep: int, carry: nat, ghost c0: seq<Byte>)
    returns (carry': nat, ghost c: seq<Byte>)
    requires f.Valid() && wordp + f.wordsize <= words.Length && carry <= 1
    requires |c0| == f.wordsize && CleanWord(f, c0) && forall b :: 0 <= b < f.wordsize ==>
      words[Spot(f, wordp, b)] == c0[b]
    requires fullBytes == f.Full() && partialBits == f.Partial() && byteStart == Spot(f, 0, 0)
             && byteStep == if f.msbyte then -1 else 1
    modifies words
    ensures carry' <= 1 && |c| == f.wordsize && CleanWord(f, c) && words[..] == Overlay(f, old(words[..]), wordp, c)
    ensures WordValue(f, c) + Pow2(f.WordBits()) * carry' + WordValue(f, c0) == carry + Pow2(f.WordBits()) - 1
  {
    hide Pow2, Complemented, WordValue, CleanWord, Overlay;
    ghost var bs := words[..];
    c := [];
    carry' := carry;
    NoneComplemented(f, c0, carry);
    NothingOver(f, bs, wordp);
    WordBitsAre(f);
    var index := 0;
    var bytep: int := wordp + byteStart;
    while index < fullBytes
      invariant index == |c| <= fullBytes && bytep == Spot(f, wordp, index) && words[..] == Overlay(f, bs, wordp, c)
      invariant Complemented(f, c0, c, carry', carry)
    {
      carry', c := ComplementByte(f, words, bs, wordp, c0, c, carry, carry', 8, bytep);
      bytep := bytep + byteStep;
      index := index + 1;
    }
    if partialBits != 0 {
      carry', c := ComplementByte(f, words, bs, wordp, c0, c, carry, carry', partialBits, bytep);
      bytep := bytep + byteStep;
      index := index + 1;
    }
    RestUntouched(f, bs, wordp, c0, c);
    RestComplemented(f, c0, c, carry', carry);
    c := c + c0[|c|..];
  }

  /** The bytes that are not in use stay as they are. */
  lemma RestUntouched(f: Format, bs: seq<Byte>, wordp: nat, c0: seq<Byte>, c: seq<Byte>)
    requires wordp + f.wordsize <= |bs| && |c| <= |c0| == f.wordsize && forall b :: 0 <= b < f.wordsize ==>
      bs[Spot(f, wordp, b)] == c0[b]
    ensures Overlay(f, bs, wordp, c + c0[|c|..]) == Overlay(f, bs, wordp, c)
  {
    var d := c + c0[|c|..];
    forall j | 0 <= j < |bs| ensures Overlay(f, bs, wordp, d)[j] == Overlay(f, bs, wordp, c)[j] {
      var b := if f.msbyte then wordp + f.wordsize - 1 - j else j - wordp;
      assert 0 <= b < f.wordsize ==> Spot(f, wordp, b) == j;
    }
  }

  lemma RestComplemented(f: Format, c0: seq<Byte>, c: seq<Byte>, carry: nat, c1: nat)
    requires f.Valid() && |c| <= |c0| == f.wordsize && Complemented(f, c0, c, carry, c1) && CleanWord(f, c0)
             && f.BitsTo(|c|) == f.WordBits()
    ensures carry <= 1 && CleanWord(f, c + c0[|c|..])
    ensures WordValue(f, c + c0[|c|..]) + Pow2(f.WordBits()) * carry + WordValue(f, c0) == c1 + Pow2(f.WordBits()) - 1
  {
    hide Pow2, WordValue;
    NoMoreValue(f, c, c0[|c|..]);
    NoMoreValue(f, c0[..|c|], c0[|c|..]);
    assert c0[..|c|] + c0[|c|..] == c0;
  }

  lemma {:induction false} NoMoreValue(f: Format, c: seq<Byte>, d: seq<Byte>)
    requires f.Valid() && |c| + |d| <= f.wordsize && f.BitsTo(|c|) == f.WordBits()
    ensures WordValue(f, c + d) == WordValue(f, c)
    decreases |d|
  {
    if d == [] {
      assert c + d == c;
    } else {
      var e, x := d[..|d| - 1], d[|d| - 1];
      NoMoreValue(f, c, e);
      assert c + d == c + e + [x];
      WordSnoc(f, c + e, x);
      assert f.Width(|c + e|) == 0;
      hide WordValue;
      PowNothing(x);
    }
  }

  /** The first k words are complemented, the others as they were. */
  ghost predicate Flipped(f: Format, bs0: seq<Byte>, bs: seq<Byte>, k: nat, carry: nat)
    requires f.Valid() && |bs0| == |bs| == f.Size() && k <= f.numwords
  {
    && Clean(f, bs, k) && carry <= 1 && (forall j :: k <= j < f.numwords ==> Word(f, bs, j) == Word(f, bs0, j))
    && Packed(f, bs, k) + Pow2(f.WordBits() * k) * carry + Packed(f, bs0, k) == Pow2(f.WordBits() * k)
  }

  lemma NoneFlipped(f: Format, bs: seq<Byte>)
    requires f.Valid() && |bs| == f.Size()
    ensures Flipped(f, bs, bs, 0, 1)
  {
    assert f.WordBits() * 0 == 0;
  }

  lemma OneFlipped(f: Format, bs0: seq<Byte>, bs: seq<Byte>, k: nat, carry: nat, c: seq<Byte>, carry': nat)
    requires f.Valid() && |bs0| == |bs| == f.Size() && k < f.numwords && Flipped(f, bs0, bs, k, carry)
             && f.WordStart(k) + f.wordsize <= |bs|
    requires |c| == f.wordsize && CleanWord(f, c) && carry' <= 1
    requires WordValue(f, c) + Pow2(f.WordBits()) * carry' + WordValue(f, Word(f, bs0, k)) == carry
             + Pow2(f.WordBits()) - 1
    ensures Flipped(f, bs0, Overlay(f, bs, f.WordStart(k), c), k + 1, carry')
  {
    hide WordValue, Pow2, CleanWord, Overlay, Format.WordStart, Format.Size;
    WordOver(f, bs, k, c);
    var cs := Overlay(f, bs, f.WordStart(k), c);
    PackedSame(f, bs, cs, k);
    WordUp(f, k);
    FlipAlgebra(Pow2(f.WordBits() * k), Pow2(f.WordBits()), WordValue(f, c), WordValue(f, Word(f, bs0, k)),
                carry, carry');
  }

  lemma FlipAlgebra(p: int, w: int, x: int, y: int, carry: int, carry': int)
    requires x + w * carry' + y == carry + w - 1
    ensures p * x + (p * w) * carry' + p * y == p * carry + p * w - p
  {
    assert p * (x + w * carry' + y) == p * (carry + w - 1);
    assert (p * w) * carry' == p * (w * carry');
  }

  /** The second half of `bary_pack`: the words become their two's complement. */
  method ComplementWords(f: Format, words: array<Byte>)
    requires f.Valid() && f.numwords > 0 && words.Length == f.Size() && Clean(f, words[..], f.numwords)
    modifies words
    ensures Clean(f, words[..], f.numwords)
    ensures var x := old(Packed(f, words[..], f.numwords));
            Packed(f, words[..], f.numwords) == if x == 0 then 0 else Pow2(f.TotalBits()) - x
  {
    hide Pow2, Flipped, Packed, WordValue, CleanWord, Overlay, Format.WordStart, Format.Size;
    var fullBytes, partialBits, wordStart, wordStep, wordLast, byteStart, byteStep := LoopSetup(f);
    ghost var bs0 := words[..];
    var carry := 1;
    ghost var k := 0;
    var wordp := wordStart;
    NoneFlipped(f, bs0);
    while true
      invariant k < f.numwords && wordp == f.WordStart(k) && Flipped(f, bs0, words[..], k, carry)
      decreases f.numwords - k
    {
      ghost var bs, carry0 := words[..], carry;
      NextWord(f, bs0, bs, k, carry);
      ghost var c;
      carry, c := ComplementWord(f, words, wordp, fullBytes, partialBits, byteStart, byteStep, carry, Word(f, bs0, k));
      OneFlipped(f, bs0, bs, k, carry0, c, carry);
      if wordp == wordLast {
        LastWord(f, k);
        k := k + 1;
        break;
      }
      StepWord(f, k);
      wordp := wordp + wordStep;
      k := k + 1;
    }
    AllFlipped(f, bs0, words[..], carry);
  }

  lemma NextWord(f: Format, bs0: seq<Byte>, bs: seq<Byte>, k: nat, carry: nat)
    requires f.Valid() && |bs0| == |bs| == f.Size() && k < f.numwords && Clean(f, bs0, f.numwords)
             && Flipped(f, bs0, bs, k, carry)
    ensures carry <= 1 && CleanWord(f, Word(f, bs0, k)) && f.WordStart(k) + f.wordsize <= |bs|
    ensures forall b :: 0 <= b < f.wordsize ==> bs[Spot(f, f.WordStart(k), b)] == Word(f, bs0, k)[b]
  {
    Inside(f, k);
    assert Word(f, bs, k) == Word(f, bs0, k);
  }

  lemma AllFlipped(f: Format, bs0: seq<Byte>, bs: seq<Byte>, carry: nat)
    requires f.Valid() && |bs0| == |bs| == f.Size() && Flipped(f, bs0, bs, f.numwords, carry)
    ensures Clean(f, bs, f.numwords)
    ensures var x := Packed(f, bs0, f.numwords);
            Packed(f, bs, f.numwords) == if x == 0 then 0 else Pow2(f.TotalBits()) - x
  {
    hide Flipped, Clean, Packed, Pow2, Word;
    FlippedTotal(f, bs0, bs, carry);
    PackedBound(f, bs, f.numwords);
    OneOrNone(Packed(f, bs, f.numwords), Pow2(f.TotalBits()), carry, Packed(f, bs0, f.numwords));
  }

  lemma FlippedTotal(f: Format, bs0: seq<Byte>, bs: seq<Byte>, carry: nat)
    requires f.Valid() && |bs0| == |bs| == f.Size() && Flipped(f, bs0, bs, f.numwords, carry)
    ensures Clean(f, bs, f.numwords) && carry <= 1 && f.WordBits() * f.numwords == f.TotalBits()
    ensures Packed(f, bs, f.numwords) + Pow2(f.TotalBits()) * carry + Packed(f, bs0, f.numwords) == Pow2(f.TotalBits())
  {
    hide Clean, Packed, Pow2, Word;
  }

  lemma OneOrNone(a: nat, p: nat, carry: nat, x: nat)
    requires a + p * carry + x == p && carry <= 1 && a < p
    ensures a == if x == 0 then 0 else p - x
  {}

  //----------------------------------------------------------------------------
  // The result

  /** The code for sign and overflow, p being 2 to the number of bits there are. */
  function CodeOf(x: int, p: nat, twocomp: bool): int
  {
    if x == 0 then 0
    else if x > 0 then if x < p then 1 else 2
    else if x + p > 0 || (twocomp && x + p == 0) then -1 else -2
  }

  /** The number the buffer stands for. */
  function Image(x: int, p: nat, twocomp: bool): nat
    requires p > 0
  {
    (if twocomp || x >= 0 then x else -x) % p
  }

  /** More digits left means more than one. */
  lemma RestLarge(src: BitSource)
    requires src.Valid() && 32 <= src.bits && src.dp < |src.ds|
    ensures src.Rest() > 1
  {
    var v := Val(src.ds[src.dp..]);
    if v == 0 { ValZeroDigits(src.ds[src.dp..]); }
    Pow2Values();
    Pow2Monotone(32, src.bits);
    MulMonotone(1, v, Pow2(src.bits));
  }

  lemma {:induction false} Pow2Order(j: nat, k: nat)
    requires Pow2(j) <= Pow2(k)
    ensures j <= k
    decreases k
  {
    if k < j { Pow2Monotone(k + 1, j); }
  }

  /** A number with one digit other than zero. */
  lemma OneDigit(ds: seq<Digit>, i: nat)
    requires |ds| == i + 1 && forall j :: 0 <= j < i ==> ds[j] == 0
    ensures Val(ds) == ds[i] * Pow2(32 * i)
  {
    ValSplit(ds, i);
    ValZeros(ds[..i]);
    assert ds[i..] == [ds[i]];
    ValSingle(ds[i]);
    ShlIsProduct(ds[i], i);
    Bitwise.PowIsPow2(i);
  }

  lemma PowerOfTwo(r: nat)
    ensures IsPow2(Pow2(r))
  {
    AndMask(Pow2(r), r);
    DivModUnique(Pow2(r), Pow2(r), 1, 0);
  }

  /** The test for a power of two, of a number between 2^n and 2^(n+1). */
  lemma PowerTest(ds: seq<Digit>, i: nat, n: nat)
    requires i < |ds| && ds[|ds| - 1] != 0 && ds[i] != 0 && (forall j :: 0 <= j < i ==> ds[j] == 0)
             && Pow2(n) <= Val(ds) < 2 * Pow2(n)
    ensures i == |ds| - 1 && IsPow2(ds[i]) <==> Val(ds) == Pow2(n)
  {
    hide Val, IsPow2;
    if i == |ds| - 1 && IsPow2(ds[i]) {
      OneDigit(ds, i);
      IsPow2Value(ds[i]);
      var k := BitLength(ds[i]) - 1;
      Pow2Add(k, 32 * i);
      Pow2Order(n, k + 32 * i);
      if n < k + 32 * i { Pow2Monotone(n + 1, k + 32 * i); }
    } else if Val(ds) == Pow2(n) {
      IsPower(ds, i, n);
    }
  }

  lemma IsPower(ds: seq<Digit>, i: nat, n: nat)
    requires i < |ds| && ds[|ds| - 1] != 0 && ds[i] != 0 && (forall j :: 0 <= j < i ==> ds[j] == 0)
             && Val(ds) == Pow2(n)
    ensures i == |ds| - 1 && IsPow2(ds[i])
  {
    hide Val, IsPow2, Pow2;
    var m, s2 := |ds| - 1, n % 32;
    PowerLength(ds, n);
    DivModUnique(Pow2(n), Pow2(n), 1, 0);
    Bitwise.LowBitsZero(ds, m, s2);
    OneDigit(ds, m);
    Pow2Add(s2, 32 * m);
    SameFactor(ds[m], Pow2(s2), Pow2(32 * m));
    PowerOfTwo(s2);
  }

  lemma PowerLength(ds: seq<Digit>, n: nat)
    requires ds != [] && ds[|ds| - 1] != 0 && Val(ds) == Pow2(n)
    ensures n == 32 * (|ds| - 1) + n % 32
  {
    hide Val, Pow, Pow2;
    var m := |ds| - 1;
    TopBounds(ds);
    Bitwise.PowIsPow2(m);
    Bitwise.PowIsPow2(m + 1);
    Pow2Order(32 * m, n);
    if n >= 32 * (m + 1) { Pow2Monotone(32 * (m + 1), n); }
  }

  lemma SameFactor(a: int, b: int, p: int)
    requires a * p == b * p && p > 0
    ensures a == b
  {
    assert (a - b) * p == 0;
  }

  lemma TopBounds(ds: seq<Digit>)
    requires ds != [] && ds[|ds| - 1] != 0
    ensures Pow(|ds| - 1) <= Val(ds) < Pow(|ds|)
  {
    var m := |ds| - 1;
    ValBound(ds);
    ValSplit(ds, m);
    assert ds[m..] == [ds[m]];
    ValSingle(ds[m]);
    ShlIsProduct(ds[m], m);
    MulMonotone(1, ds[m], Pow(m));
  }

  /** What is left over tells about overflow. */
  lemma LeftOver(m: nat, v: nat, p: nat, r: nat)
    requires v < p && v + p * r == m
    ensures (r == 0 ==> m == v) && (r == 1 ==> p <= m < 2 * p) && (r > 1 ==> m >= 2 * p) && m % p == v
  {
    assert r > 1 ==> p * r >= p * 2;
    Divided(v, p, r, m);
  }

  /** The overflow tests behind the loop. */
  method OverflowTest(sign: int, ds: seq<Digit>, src: BitSource, twocomp: bool, ghost n: nat, ghost v: nat)
    returns (code: int)
    requires (sign == 1 || sign == -1) && src.Valid() && src.ds == ds != [] && ds[|ds| - 1] != 0
    requires v < Pow2(n) && v + Pow2(n) * src.Rest() == Val(ds)
    modifies src
    ensures code == CodeOf(sign * Val(ds), Pow2(n), twocomp)
  {
    hide Val, Pow2, IsPow2, BitSource.Rest, BitSource.Valid;
    LeftOver(Val(ds), v, Pow2(n), src.Rest());
    SomeDigits(ds);
    assert sign * Val(ds) == if sign == 1 then Val(ds) else 0 - Val(ds);
    code := sign;
    src.Fill();
    if src.dp != |ds| { RestMore(src); }
    if src.dp != |ds| || 1 < src.dd {
      code := 2 * sign;
    } else if src.dd == 1 {
      if !twocomp || 0 <= sign {
        code := 2 * sign;
      } else {
        var i := 0;
        while i < |ds| && ds[i] == 0
          invariant i <= |ds| && forall j :: 0 <= j < i ==> ds[j] == 0
        {
          i := i + 1;
        }
        PowerTest(ds, i, n);
        code := if |ds| - i == 1 && IsPow2(ds[i]) then -1 else -2;
      }
    }
  }

  lemma RestMore(src: BitSource)
    requires src.Valid() && 32 <= src.bits && src.dp != |src.ds|
    ensures src.Rest() > 1
  {
    RestLarge(src);
  }

  lemma SomeDigits(ds: seq<Digit>)
    requires ds != [] ==> ds[|ds| - 1] != 0
    ensures (Val(ds) == 0 <==> ds == []) && (Val(ds) == 1 <==> ds == [1])
  {
    if ds != [] {
      TopBounds(ds);
      ValSingle(1);
      assert |ds| > 1 ==> Pow(|ds| - 1) == 0x1_0000_0000 * Pow(|ds| - 2);
      if Val(ds) == 1 { ValInjective(ds, [1]); }
    }
  }

  lemma NoWords(f: Format, bs: seq<Byte>)
    requires f.Valid() && |bs| == f.Size()
    ensures f.numwords == 0 <==> bs == []
    ensures f.numwords == 0 ==> Pow2(f.TotalBits()) == 1 && Packed(f, bs, f.numwords) == 0 && Clean(f, bs, f.numwords)
  {
    if f.numwords > 0 {
      MulMonotone(1, f.numwords, f.wordsize);
    } else {
      assert 0 * f.wordsize == 0 && 0 * f.WordBits() == 0;
    }
  }

  /** The case of a buffer of no words. */
  method NoBuffer(sign: int, ds: seq<Digit>, twocomp: bool) returns (code: int)
    requires sign == 0 || sign == 1 || sign == -1
    requires (ds != [] ==> ds[|ds| - 1] != 0) && (ds == [] <==> sign == 0)
    ensures code == CodeOf(sign * Val(ds), 1, twocomp)
  {
    hide Val;
    SomeDigits(ds);
    if !twocomp || 0 <= sign {
      code := 2 * sign;
    } else {
      code := if |ds| == 1 && ds[0] == 1 then -1 else -2;
    }
  }

  /** `memset` of the buffer to zero. */
  method ClearWords(f: Format, words: array<Byte>)
    requires f.Valid() && words.Length == f.Size()
    modifies words
    ensures Clean(f, words[..], f.numwords) && Packed(f, words[..], f.numwords) == 0
  {
    forall i | 0 <= i < words.Length { words[i] := 0; }
    assert forall i :: 0 <= i < words.Length ==> words[..][i] == 0;
    ZeroPacked(f, words[..], f.numwords);
  }

  lemma {:induction false} ZeroPacked(f: Format, bs: seq<Byte>, k: nat)
    requires f.Valid() && |bs| == f.Size() && k <= f.numwords && forall i :: 0 <= i < |bs| ==> bs[i] == 0
    ensures Clean(f, bs, k) && Packed(f, bs, k) == 0
    decreases k
  {
    hide Pow2, WordValue, Word, Format.WordStart, Format.Size;
    if k > 0 {
      ZeroPacked(f, bs, k - 1);
      ZeroBytes(f, bs, k - 1);
      ZeroWord(f, Word(f, bs, k - 1));
      Timeless(Pow2(f.WordBits() * (k - 1)));
    }
  }

  lemma ZeroBytes(f: Format, bs: seq<Byte>, k: nat)
    requires f.Valid() && |bs| == f.Size() && k < f.numwords && forall i :: 0 <= i < |bs| ==> bs[i] == 0
    ensures forall b :: 0 <= b < f.wordsize ==> Word(f, bs, k)[b] == 0
  {
    Inside(f, k);
  }

  lemma {:induction false} ZeroWord(f: Format, c: seq<Byte>)
    requires f.Valid() && forall b :: 0 <= b < |c| ==> c[b] == 0
    ensures WordValue(f, c) == 0
    decreases |c|
  {
    if c != [] {
      var b := |c| - 1;
      ZeroWord(f, c[..b]);
      DivModUnique(0, Pow2(f.Width(b)), 0, 0);
      Timeless(Pow2(f.BitsTo(b)));
    }
  }

  lemma PackedBelow(f: Format, bs: seq<Byte>)
    requires f.Valid() && |bs| == f.Size()
    ensures Packed(f, bs, f.numwords) < Pow2(f.TotalBits())
  {
    PackedBound(f, bs, f.numwords);
    assert f.WordBits() * f.numwords == f.TotalBits();
  }

  /** From the magnitude to the number itself. */
  lemma ImageOf(m: nat, p: nat, sign: int, twocomp: bool)
    requires p > 0 && (sign == 1 || sign == -1)
    ensures Image(sign * m, p, twocomp) ==
            if twocomp && sign * m < 0 then if m % p == 0 then 0 else p - m % p else m % p
    ensures CodeOf(sign * m, p, twocomp) < 0 <==> sign * m < 0
    ensures 0 % p == 0
  {
    var q, r := m / p, m % p;
    DivModUnique(0, p, 0, 0);
    if sign == -1 && m > 0 {
      assert m == q * p + r;
      if r == 0 {
        DivModUnique(0 - m, p, 0 - q, 0);
      } else {
        assert (0 - q - 1) * p == 0 - q * p - p;
        DivModUnique(0 - m, p, 0 - q - 1, p - r);
      }
    }
  }

  /** `bary_pack`, the general part: the buffer holds the number modulo 2 to the number of its
      bits, the unused bits are zero, and the code tells the sign and whether it fits. */
  method GenericPack(sign: int, digits: seq<Digit>, f: Format, words: array<Byte>, twocomp: bool) returns (code: int)
    requires (sign == 1 || sign == -1) && f.Valid() && words.Length == f.Size()
    modifies words
    ensures code == CodeOf(sign * Val(digits), Pow2(f.TotalBits()), twocomp)
    ensures Clean(f, words[..], f.numwords) && Packed(f, words[..], f.numwords) ==
            Image(sign * Val(digits), Pow2(f.TotalBits()), twocomp)
  {
    hide Val, Pow2, Packed, Clean, CodeOf, Image, BitSource.Rest, BitSource.Valid, Format.Size, Format.TotalBits;
    var ds := Bitwise.Trunc(digits);
    ghost var p := Pow2(f.TotalBits());
    SomeDigits(ds);
    NoWords(f, words[..]);
    ImageOf(Val(ds), p, sign, twocomp);
    code := if ds == [] then 0 else sign;
    if words.Length == 0 {
      code := NoBuffer(code, ds, twocomp);
      ModOne(Val(ds));
    } else if ds == [] {
      CodeZero(sign, p, twocomp);
      ClearWords(f, words);
    } else {
      code := PackMagnitude(sign, ds, f, words, twocomp);
    }
    if twocomp && code < 0 && f.numwords != 0 {
      ComplementWords(f, words);
    }
  }

  lemma ModOne(m: int)
    ensures m % 1 == 0
  {}

  lemma CodeZero(sign: int, p: nat, twocomp: bool)
    ensures CodeOf(sign * 0, p, twocomp) == 0
  {}

  method PackMagnitude(sign: int, ds: seq<Digit>, f: Format, words: array<Byte>, twocomp: bool) returns (code: int)
    requires (sign == 1 || sign == -1) && f.Valid() && f.numwords > 0 && words.Length == f.Size() && ds != []
             && ds[|ds| - 1] != 0
    modifies words
    ensures code == CodeOf(sign * Val(ds), Pow2(f.TotalBits()), twocomp)
    ensures Clean(f, words[..], f.numwords) && Packed(f, words[..], f.numwords) == Val(ds) % Pow2(f.TotalBits())
  {
    hide Val, Pow2, Packed, Clean, CodeOf, BitSource.Rest, BitSource.Valid, Format.Size, Format.TotalBits;
    var src := new BitSource(ds);
    PackWords(f, src, words);
    PackedBelow(f, words[..]);
    LeftOver(Val(ds), Packed(f, words[..], f.numwords), Pow2(f.TotalBits()), src.Rest());
    code := OverflowTest(sign, ds, src, twocomp, f.TotalBits(), Packed(f, words[..], f.numwords));
  }
}

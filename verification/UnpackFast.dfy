/**
 * The shortcuts of `bary_unpack_internal`: each leaves the same digits and sign as the general
 * part.
 */
module UnpackFast {
  import opened Bits
  import opened Digits
  import opened AddSub
  import opened PackFormat
  import opened Pack
  import opened PackBytes
  import opened PackOrder
  import PackFast
  import opened Unpack

  //----------------------------------------------------------------------------
  // Signs

  /** The number is read as it is. */
  lemma Plain(w: nat, n: nat, ds: seq<Digit>, twocomp: bool, negative: bool, sign: int)
    requires Val(ds) == w && (twocomp ==> !negative && (n > 0 ==> w < Pow2(n - 1)))
             && sign == (if !twocomp && negative then -1 else 1)
    ensures var v := Meaning(w, n, twocomp, negative);
            sign == SignFor(v, |ds|, twocomp, negative) && Signed(ds, sign) == v
  {}

  /** The higher bits are ones, and the digits were complemented. */
  lemma Complement(w: nat, n: nat, ds: seq<Digit>, negative: bool, zero: bool, sign: int)
    requires w < Pow2(n) && (negative || (n > 0 && w >= Pow2(n - 1))) && Pow2(n) <= Pow(|ds|)
    requires (zero <==> w + Pow(|ds|) - Pow2(n) == 0) && Val(ds) == (if zero then 0 else Pow2(n) - w)
             && sign == (if zero then -2 else -1)
    ensures var v := Meaning(w, n, true, negative); sign == SignFor(v, |ds|, true, negative) && Signed(ds, sign) == v
  {
    hide Pow2, Pow, Val;
    ValBound(ds);
  }

  //----------------------------------------------------------------------------
  // Words of whole digits

  /** Bytes of memory taken as digits. */
  method LoadDigits(bs: seq<Byte>, out: array<Digit>)
    requires |bs| == 4 * out.Length
    modifies out
    ensures BytesOf(out[..]) == bs
  {
    hide DigitBytes, BytesOf, FromBytes;
    NoBytesOf();
    var i := 0;
    assert bs[..0] == [] && out[..0] == [];
    while i < out.Length
      invariant 0 <= i <= out.Length && BytesOf(out[..i]) == bs[..4 * i]
    {
      ghost var before := out[..i];
      out[i] := FromBytes(bs[4 * i], bs[4 * i + 1], bs[4 * i + 2], bs[4 * i + 3]);
      assert out[..i + 1] == before + [out[i]];
      BytesOfAppend(before, [out[i]]);
      BytesOfOne(out[i]);
      BytesBack(bs[4 * i], bs[4 * i + 1], bs[4 * i + 2], bs[4 * i + 3]);
      assert bs[..4 * (i + 1)] == bs[..4 * i] + [bs[4 * i], bs[4 * i + 1], bs[4 * i + 2], bs[4 * i + 3]];
      i := i + 1;
    }
    assert out[..] == out[..i] && bs == bs[..4 * i];
  }

  /** The digits taken out of the order of the format. */
  method Rearrange(f: Format, per: nat, w: array<Digit>)
    requires Whole(f, per) && w.Length == Offset(f.numwords, per) && |BytesOf(w[..])| == f.Size()
    modifies w
    ensures Val(w[..]) == old(Packed(f, BytesOf(w[..]), f.numwords))
  {
    hide Val, Packed, BytesOf, SwapAll, Rev, Part, Offset, Format.Size;
    ghost var ws := w[..];
    if f.msword {
      Reverse(w, 0, w.Length);
      assert w[..] == w[0..w.Length] && ws == ws[0..w.Length];
    }
    ghost var w1 := w[..];
    if f.msword != f.msbyte { ReverseWords(w, per, f.numwords); }
    ghost var w2 := w[..];
    if f.msbyte { SwapDigits(w); }
    Rearranged(f, per, ws, w1, w2, w[..]);
  }

  lemma Rearranged(f: Format, per: nat, ws: seq<Digit>, w1: seq<Digit>, w2: seq<Digit>, ds: seq<Digit>)
    requires Whole(f, per) && |ds| == |w1| == |w2| == |ws| == Offset(f.numwords, per) && |BytesOf(ws)| == f.Size()
    requires w1 == (if f.msword then Rev(ws) else ws) && ds == (if f.msbyte then SwapAll(w2) else w2)
    requires if f.msword != f.msbyte
             then forall i :: 0 <= i < f.numwords ==> Offset(i, per) + per <= |ds|
                                                      && Part(w2, per, i) == Rev(Part(w1, per, i))
             else w2 == w1
    ensures Packed(f, BytesOf(ws), f.numwords) == Val(ds)
  {
    hide Val, Packed, Clean, BytesOf, SwapAll, Rev, Part, Offset, Format.Size, Word;
    forall k | 0 <= k < f.numwords
      ensures Offset(k, per) + per <= |ds| && Word(f, BytesOf(ws), k) == BytesOf(Part(ds, per, k))
    {
      OffsetInside(k, per, f.numwords);
      if f.msword != f.msbyte { assert Part(w2, per, k) == Rev(Part(w1, per, k)); }
      RearrangedWord(f, per, ws, w1, w2, ds, k);
    }
    PartsPacked(f, per, BytesOf(ws), ds);
  }

  lemma RearrangedWord(f: Format, per: nat, ws: seq<Digit>, w1: seq<Digit>, w2: seq<Digit>, ds: seq<Digit>, k: nat)
    requires Whole(f, per) && |ds| == |w1| == |w2| == |ws| == Offset(f.numwords, per) && k < f.numwords
             && Offset(k, per) + per <= |ds|
    requires w1 == (if f.msword then Rev(ws) else ws) && ds == (if f.msbyte then SwapAll(w2) else w2)
    requires Part(w2, per, k) == if f.msword != f.msbyte then Rev(Part(w1, per, k)) else Part(w1, per, k)
    ensures |BytesOf(ws)| == f.Size() && Word(f, BytesOf(ws), k) == BytesOf(Part(ds, per, k))
  {
    hide BytesOf, SwapAll, Rev, Part, Offset, Format.Size, Word;
    WordOfDigits(f, per, ws, k);
    var e := Part(ws, per, Where(f, k));
    if f.msword { RevPart(ws, per, f.numwords, k); }
    if f.msbyte { SwapPart(w2, per, k); }
    RevRev(e);
    RevSwap(e);
  }

  /** The highest digit is asked for also where there is none. */
  method UnpackDigits(f: Format, per: nat, bs: seq<Byte>, out: array<Digit>, twocomp: bool, negative: bool)
    returns (sign: int, inside: bool)
    requires Whole(f, per) && |bs| == f.Size() && out.Length == Offset(f.numwords, per)
    modifies out
    ensures inside <==> f.numwords > 0 || !twocomp || negative
    ensures inside ==> Result(f, bs, out[..], twocomp, negative, sign)
  {
    hide Val, Packed, BytesOf, Offset, Format.Size, Pow, Pow2, Format.TotalBits, Meaning, SignFor, Signed;
    PackFast.PartSizes(f, per, out.Length);
    PackFast.DigitsTotal(f, per);
    NoWords(f, bs);
    sign, inside := 0, true;
    LoadDigits(bs, out);
    Rearrange(f, per, out);
    ghost var w, n := Packed(f, bs, f.numwords), f.TotalBits();
    ghost var ds := out[..];
    PackedBelow(f, bs);
    if twocomp {
      var z := Span(out, 0, out.Length);
      assert z.Digits() == out[..];
      if negative {
        var zero := TwoComp(z);
        assert z.Digits() == out[..];
        sign := if zero then -2 else -1;
        Complement(w, n, out[..], negative, zero, sign);
      } else if out.Length == 0 {
        inside := false;
      } else {
        TopBit(f, per, ds);
        if out[out.Length - 1] >= 0x8000_0000 {
          var zero := TwoComp(z);
          assert z.Digits() == out[..];
          sign := -1;
          Complement(w, n, out[..], negative, zero, sign);
        } else {
          sign := 1;
          Plain(w, n, out[..], twocomp, negative, sign);
        }
      }
    } else {
      sign := if negative then -1 else 1;
      Plain(w, n, out[..], twocomp, negative, sign);
    }
  }

  /** `BDIGIT_MSB` of the highest digit. */
  lemma TopBit(f: Format, per: nat, ds: seq<Digit>)
    requires Whole(f, per) && ds != [] && |ds| == Offset(f.numwords, per)
    ensures f.TotalBits() > 0 && (Val(ds) >= Pow2(f.TotalBits() - 1) <==> ds[|ds| - 1] >= 0x8000_0000)
            && Pow2(f.TotalBits() - 1) > 0
  {
    assert f.numwords * (32 * per) == 32 * (f.numwords * per);
    TopBits(ds, 32, f.TotalBits());
    Pow2Values();
  }

  //----------------------------------------------------------------------------
  // A copy of the memory

  function Fill(x: Byte, n: nat): (s: seq<Byte>)
    ensures |s| == n && forall i :: 0 <= i < n ==> s[i] == x
  {
    seq(n, _ => x)
  }

  /** The bytes behind the buffer, up to whole digits, filled with zeros or ones. */
  lemma FilledBytes(bs: seq<Byte>, pad: nat, len: nat)
    requires |bs| + pad == 4 * len
    ensures BytesVal(bs + Fill(0, pad)) == BytesVal(bs)
    ensures Pow2(8 * |bs|) <= Pow(len) && BytesVal(bs + Fill(255, pad)) == BytesVal(bs) + Pow(len) - Pow2(8 * |bs|)
  {
    hide Pow2, BytesVal, Fill, Pow;
    BytesAppend(bs, Fill(0, pad));
    ZeroBytesVal(Fill(0, pad));
    Timeless(Pow2(8 * |bs|));
    BytesAppend(bs, Fill(255, pad));
    PackFast.AllOnes(Fill(255, pad));
    Bitwise.PowIsPow2(len);
    Pow2Add(8 * |bs|, 8 * pad);
    Pow2Monotone(8 * |bs|, 32 * len);
    LessOne(Pow2(8 * |bs|), Pow2(8 * pad));
  }

  lemma LessOne(p: int, q: int)
    ensures p * (q - 1) == p * q - p
  {}

  lemma TopByte(bs: seq<Byte>)
    requires bs != []
    ensures (BytesVal(bs) >= Pow2(8 * |bs| - 1) <==> bs[|bs| - 1] >= 128) && Pow2(8 * |bs| - 1) > 0
  {
    var m := |bs| - 1;
    assert bs == bs[..m] + [bs[m]];
    BytesAppend(bs[..m], [bs[m]]);
    BytesBound(bs[..m]);
    assert BytesVal([bs[m]]) == bs[m] by { assert [bs[m]][1..] == []; }
    Pow2Add(8 * m, 7);
    assert Pow2(7) == 128;
    hide Pow2, BytesVal;
    CompareAlgebra(BytesVal(bs[..m]), bs[m], Pow2(8 * m), 128);
  }

  /** The highest byte is asked for also where there is none. */
  method UnpackCopy(f: Format, bs: seq<Byte>, out: array<Digit>, twocomp: bool, negative: bool)
    returns (sign: int, inside: bool)
    requires f.Valid() && f.nails == 0 && !f.msword && !f.msbyte && |bs| == f.Size() <= 4 * out.Length
    modifies out
    ensures inside <==> f.numwords > 0 || !twocomp || negative
    ensures inside ==> Result(f, bs, out[..], twocomp, negative, sign)
  {
    hide Val, Packed, BytesVal, BytesOf, Format.Size, Pow, Pow2, Format.TotalBits, Meaning, SignFor, Signed, Fill;
    NoWords(f, bs);
    sign, inside := 0, true;
    if twocomp && !negative && |bs| == 0 { return 0, false; }
    var pad := 4 * out.Length - |bs|;
    ghost var w, n := Packed(f, bs, f.numwords), f.TotalBits();
    PackFast.MachineOrder(f, bs);
    PackFast.BytesTotal(f);
    PackedBelow(f, bs);
    FilledBytes(bs, pad, out.Length);
    if twocomp && (negative || TopOf(bs) >= 128) {
      if !negative { TopByte(bs); }
      LoadDigits(bs + Fill(255, pad), out);
      BytesOfVal(out[..]);
      var z := Span(out, 0, out.Length);
      assert z.Digits() == out[..];
      var zero := TwoComp(z);
      assert z.Digits() == out[..];
      sign := if negative && zero then -2 else -1;
      Complement(w, n, out[..], negative, zero, sign);
    } else {
      if twocomp { TopByte(bs); }
      LoadDigits(bs + Fill(0, pad), out);
      BytesOfVal(out[..]);
      sign := if !twocomp && negative then -1 else 1;
      Plain(w, n, out[..], twocomp, negative, sign);
    }
  }

  function TopOf(bs: seq<Byte>): Byte
    requires bs != []
  {
    bs[|bs| - 1]
  }

  //----------------------------------------------------------------------------
  // One word of a size the machine knows

  /** The word, put into the order of the machine. */
  method LoadNative(f: Format, bs: seq<Byte>) returns (u: Digit)
    requires PackFast.Native(f) && |bs| == f.Size()
    ensures u == Packed(f, bs, 1)
  {
    hide Packed, FromBytes, DigitBytes, SwapDigit, Format.Size;
    PackFast.NativeBits(f);
    var b1 := if f.wordsize > 1 then bs[1] else 0;
    var b2, b3 := if f.wordsize > 2 then bs[2] else 0, if f.wordsize > 2 then bs[3] else 0;
    u := FromBytes(bs[0], b1, b2, b3);
    BytesBack(bs[0], b1, b2, b3);
    ghost var raw := u;
    if f.wordsize != 1 && f.msbyte { u := PackFast.SwapNative(u, f.wordsize); }
    NativeRead(f, bs, raw, u);
  }

  lemma NativeRead(f: Format, bs: seq<Byte>, raw: Digit, u: Digit)
    requires PackFast.Native(f) && |bs| == f.Size() == f.wordsize
    requires DigitBytes(raw) == bs + Fill(0, 4 - f.wordsize)
    requires u == if f.wordsize != 1 && f.msbyte then PackFast.SwapNative(raw, f.wordsize) else raw
    ensures u == Packed(f, bs, 1)
  {
    hide Packed, Clean, DigitBytes, FromBytes, BytesVal, Word, SwapDigit;
    var c := Word(f, bs, 0);
    WordSlice(f, bs, 0, 0);
    assert bs[0..f.wordsize] == bs;
    PackFast.OneWord(f, bs);
    var d := DigitBytes(raw);
    BytesBack(d[1], d[0], 0, 0);
    SwapBytes(raw);
    assert DigitBytes(u) == c + Fill(0, 4 - f.wordsize);
    DigitBytesVal(u);
    PackFast.BytesDropZeros(DigitBytes(u), f.wordsize);
    assert DigitBytes(u)[..f.wordsize] == c;
  }

  /** `integer_unpack_single_bdigit`. */
  method SingleBdigit(u: Digit, size: nat, twocomp: bool, negative: bool) returns (sign: int, d: Digit)
    requires (size == 1 || size == 2 || size == 4) && u < Pow2(8 * size)
    ensures var v := Meaning(u, 8 * size, twocomp, negative);
            sign == SignFor(v, 1, twocomp, negative) && Signed([d], sign) == v
  {
    hide Pow2, Or, Lo, Val, Pow;
    SizeFacts(size);
    ValSingle(u);
    d := u;
    if twocomp {
      PackFast.LowbitsMean(u, 8 * size - 1);
      Shifted(u, 8 * size - 1);
      sign := if negative then if size == 4 && u == 0 then -2 else -1
              else if u / Pow2(8 * size - 1) != 0 then -1 else 1;
      if sign < 0 {
        var high := if size == 4 then 0 else Lo(BDIGMAX as int * Pow2(8 * size));
        if size < 4 { FilledUp(u, 8 * size); } else { OrNothing(u); }
        d := Or(u, high);
        LoComplement(d);
        d := Lo(1 + (BDIGMAX - d));
        ValSingle(d);
        Complement(u, 8 * size, [d], negative, sign == -2, sign);
      } else {
        Plain(u, 8 * size, [d], twocomp, negative, sign);
      }
    } else {
      sign := if negative then -1 else 1;
      Plain(u, 8 * size, [d], twocomp, negative, sign);
    }
  }

  lemma SizeFacts(size: nat)
    requires size == 1 || size == 2 || size == 4
    ensures Pow(1) == 0x1_0000_0000 && Pow2(8 * size) <= 0x1_0000_0000
            && (Pow2(8 * size) == 0x1_0000_0000 <==> size == 4)
    ensures Pow2(8 * size - 1) > 0
  {
    Pow2Values();
    Pow2Add(8, 8);
    assert Pow(0) == 1;
  }

  lemma OrNothing(u: nat)
    ensures Or(u, 0) == u
  {
    Pow2Monotone(0, u);
    BelowPower(u);
    OrIsSum(u, 0, u);
    assert 0 * Pow2(u) == 0;
  }

  lemma {:induction false} BelowPower(u: nat)
    ensures u < Pow2(u)
    decreases u
  {
    if u > 0 { BelowPower(u - 1); }
  }

  lemma LoComplement(d: Digit)
    ensures Lo(1 + (BDIGMAX - d)) == if d == 0 then 0 else 0x1_0000_0000 - d
  {}

  method UnpackSingle(f: Format, bs: seq<Byte>, out: array<Digit>, twocomp: bool, negative: bool) returns (sign: int)
    requires PackFast.Native(f) && |bs| == f.Size() && out.Length == 1
    modifies out
    ensures Result(f, bs, out[..], twocomp, negative, sign)
  {
    hide Packed, Val, Pow, Pow2, Meaning, SignFor, Signed, Format.Size, Format.TotalBits;
    PackFast.NativeBits(f);
    PackedBelow(f, bs);
    var u := LoadNative(f, bs);
    var d;
    sign, d := SingleBdigit(u, f.wordsize, twocomp, negative);
    out[0] := d;
    assert out[..] == [d];
  }

  //----------------------------------------------------------------------------
  // All of bary_unpack_internal

  /** The sign is to be taken from the highest bit, there is none, and a shortcut looks all the
      same: at a byte or digit that is not part of the buffer. */
  predicate LooksOutside(f: Format, twocomp: bool, negative: bool, generic: bool)
  {
    && f.numwords == 0 && twocomp && !negative && !generic && f.nails == 0
    && ((!f.msword && !f.msbyte) || f.wordsize % 4 == 0)
  }

  /** Such an input, for which 0 is documented. */
  lemma NoHighestBit()
    ensures var f := Format(0, 1, 0, false, false);
            f.Valid() && LooksOutside(f, true, false, false) && Meaning(0, f.TotalBits(), true, false) == 0
  {}

  /** The general part gives the 0 that is documented. */
  lemma NoWordsMeanZero(f: Format, bs: seq<Byte>, ds: seq<Digit>, sign: int)
    requires f.Valid() && f.numwords == 0 && Result(f, bs, ds, true, false, sign)
    ensures sign == 1 && Val(ds) == 0
  {
    assert f.TotalBits() == 0 by { assert 0 * f.WordBits() == 0; }
  }

  /** `bary_unpack_internal`: which way is taken matters only where a shortcut looks outside. */
  method BaryUnpack(f: Format, bs: seq<Byte>, out: array<Digit>, twocomp: bool, negative: bool, nlpBits: nat,
                    generic: bool, aligned: bool)
    returns (sign: int, inside: bool)
    requires f.Valid() && |bs| == f.Size() && 32 * out.Length == f.TotalBits() + nlpBits && nlpBits < 32
    modifies out
    ensures inside <==> !LooksOutside(f, twocomp, negative, generic)
    ensures inside ==> Result(f, bs, out[..], twocomp, negative, sign)
  {
    hide Packed, Val, Pow, Pow2, Meaning, SignFor, Signed, Format.Size, Format.TotalBits;
    inside := true;
    if !generic && f.nails == 0 {
      PackFast.BytesTotal(f);
      NoWords(f, bs);
      if f.numwords == 1 && (f.wordsize == 1 || ((f.wordsize == 2 || f.wordsize == 4) && aligned)) {
        PackFast.NativeBits(f);
        sign := UnpackSingle(f, bs, out, twocomp, negative);
        return;
      }
      if !f.msword && !f.msbyte {
        sign, inside := UnpackCopy(f, bs, out, twocomp, negative);
        return;
      }
      if f.wordsize % 4 == 0 {
        PackFast.PartSizes(f, f.wordsize / 4, Offset(f.numwords, f.wordsize / 4));
        sign, inside := UnpackDigits(f, f.wordsize / 4, bs, out, twocomp, negative);
        return;
      }
    }
    sign := GenericUnpack(f, bs, out, twocomp, negative, nlpBits);
  }
}

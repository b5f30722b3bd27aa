/**
 * Packing and unpacking undo each other.
 */
module PackRoundTrip {
  import opened Bits
  import opened Digits
  import opened PackFormat
  import opened PackSize
  import opened Pack
  import Unpack
  import PackFast
  import UnpackFast

  /** With the flags that fit the sign, exactly the numbers packed without overflow come back. */
  lemma MatchingFlags(x: int, n: nat, twocomp: bool)
    ensures Unpack.Meaning(Image(x, Pow2(n), twocomp), n, twocomp && x < 0, x < 0) == x <==>
      -1 <= CodeOf(x, Pow2(n), twocomp) <= 1
  {
    var p := Pow2(n);
    hide Pow2;
    if x >= 0 {
      if x < p { DivModUnique(x, p, 0, x); }
    } else if twocomp {
      if x + p >= 0 { DivModUnique(x, p, -1, x + p); }
    } else {
      if x + p > 0 { DivModUnique(-x, p, 0, -x); }
    }
  }

  /** Without the flag for negative numbers, those come back whose sign the highest bit tells. */
  lemma SignExtension(x: int, n: nat)
    requires n > 0
    ensures Unpack.Meaning(Image(x, Pow2(n), true), n, true, false) == x <==> 0 - Pow2(n - 1) <= x < Pow2(n - 1)
  {
    var h := Pow2(n - 1);
    assert Pow2(n) == 2 * h;
    hide Pow2;
    if 0 <= x < h { DivModUnique(x, 2 * h, 0, x); }
    if 0 - h <= x < 0 { DivModUnique(x, 2 * h, -1, x + 2 * h); }
  }

  /** `rb_integer_pack`, then `rb_integer_unpack`: whichever way each of them takes, a number that
      did not overflow comes back. */
  method PackThenUnpack(sign: int, digits: seq<Digit>, f: Format, twocomp: bool, generic1: bool, aligned1: bool,
                        generic2: bool, aligned2: bool)
    returns (code: int, sign': int, ds: seq<Digit>)
    requires (sign == 1 || sign == -1) && Sized(f)
    ensures -1 <= code <= 1 <==> Unpack.Signed(ds, sign') == sign * Val(digits)
  {
    hide Val, Packed, Clean, Pow2, CodeOf, Image, Unpack.Meaning, Unpack.SignFor, Unpack.Signed, Format.TotalBits;
    var words := new Byte[f.Size()];
    code := PackFast.BaryPack(sign, digits, f, words, twocomp, generic1, aligned1);
    var num, nlpBits := NumBdigits(f);
    var out := new Digit[num];
    var negative := code < 0;
    NegativeCode(sign * Val(digits), Pow2(f.TotalBits()), twocomp);
    var inside;
    sign', inside := UnpackFast.BaryUnpack(f, words[..], out, twocomp && negative, negative, nlpBits,
                                           generic2, aligned2);
    ds := out[..];
    MatchingFlags(sign * Val(digits), f.TotalBits(), twocomp);
  }

  /** The code tells the sign. */
  lemma NegativeCode(x: int, p: nat, twocomp: bool)
    ensures CodeOf(x, p, twocomp) < 0 <==> x < 0
  {}
}

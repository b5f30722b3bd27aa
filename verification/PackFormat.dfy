/**
 * The formats of packed integers: words of bytes in either order, the high bits of each word
 * unused ("nails").
 */
module PackFormat {
  import opened Bits
  import opened Digits

  type Byte = x: int | 0 <= x < 256

  /** `numwords`, `wordsize`, `nails` and the order flags, the host being little-endian. */
  datatype Format = Format(numwords: nat, wordsize: nat, nails: nat, msword: bool, msbyte: bool) {

    /** What `validate_integer_pack_format` lets through. */
    predicate Valid() { 0 < wordsize && nails / 8 < wordsize }

    /** `word_num_partialbits` and `word_num_fullbytes`. */
    function Partial(): nat { if nails % 8 == 0 then 0 else 8 - nails % 8 }

    function Full(): nat
      requires Valid()
    {
      wordsize - nails / 8 - (if Partial() != 0 then 1 else 0)
    }

    /** The bits of byte b of a word, counted from the low end, that are in use. */
    function Width(b: nat): (w: nat)
      requires Valid()
      ensures w <= 8
    {
      if b < Full() then 8 else if b == Full() then Partial() else 0
    }

    /** The bits of the bytes below byte b. */
    function BitsTo(b: nat): nat
      requires Valid()
    {
      if b <= Full() then 8 * b else 8 * Full() + Partial()
    }

    function WordBits(): nat
      requires Valid()
    {
      8 * Full() + Partial()
    }

    function TotalBits(): nat
      requires Valid()
    {
      numwords * WordBits()
    }

    function Size(): nat { numwords * wordsize }

    /** Where word k starts, counted from the least significant word, and where its byte b is. */
    function WordStart(k: nat): nat
      requires k < numwords
    {
      (if msword then numwords - 1 - k else k) * wordsize
    }

    function Place(k: nat, b: nat): nat
      requires k < numwords && b < wordsize
    {
      WordStart(k) + if msbyte then wordsize - 1 - b else b
    }
  }

  lemma WordBitsAre(f: Format)
    requires f.Valid()
    ensures f.WordBits() == 8 * f.wordsize - f.nails > 0 && f.BitsTo(f.wordsize) == f.WordBits()
    ensures f.Full() <= f.wordsize && (f.Partial() != 0 ==> f.Full() < f.wordsize)
  {}

  lemma NextBits(f: Format, b: nat)
    requires f.Valid()
    ensures f.BitsTo(b + 1) == f.BitsTo(b) + f.Width(b)
  {}

  /** Every byte is inside the buffer. */
  lemma Inside(f: Format, k: nat)
    requires k < f.numwords
    ensures f.WordStart(k) + f.wordsize <= f.Size()
  {
    var i := if f.msword then f.numwords - 1 - k else k;
    MulMonotone(i + 1, f.numwords, f.wordsize);
  }

  /** Different words do not overlap. */
  lemma Apart(f: Format, j: nat, k: nat)
    requires j < k < f.numwords
    ensures f.WordStart(j) + f.wordsize <= f.WordStart(k) || f.WordStart(k) + f.wordsize <= f.WordStart(j)
  {
    if f.msword {
      MulMonotone(f.numwords - 1 - k + 1, f.numwords - 1 - j, f.wordsize);
    } else {
      MulMonotone(j + 1, k, f.wordsize);
    }
  }

  //----------------------------------------------------------------------------
  // The number that is packed

  /** What one byte contributes: its bits in use. */
  function Used(f: Format, b: nat, x: Byte): nat
    requires f.Valid()
  {
    x % Pow2(f.Width(b))
  }

  /** The number in the low bytes of a word, the least significant byte first. */
  function WordValue(f: Format, c: seq<Byte>): nat
    requires f.Valid()
  {
    if c == [] then 0 else
    var b := |c| - 1;
    WordValue(f, c[..b]) + Pow2(f.BitsTo(b)) * Used(f, b, c[b])
  }

  /** Word k of a buffer, the least significant byte first. */
  function Word(f: Format, bs: seq<Byte>, k: nat): (c: seq<Byte>)
    requires f.Valid() && |bs| == f.Size() && k < f.numwords
    ensures |c| == f.wordsize && forall b :: 0 <= b < f.wordsize ==> c[b] == (Inside(f, k); bs[f.Place(k, b)])
  {
    Inside(f, k);
    seq(f.wordsize, b requires 0 <= b < f.wordsize => bs[f.Place(k, b)])
  }

  /** The number in the k least significant words. */
  function Packed(f: Format, bs: seq<Byte>, k: nat): nat
    requires f.Valid() && |bs| == f.Size() && k <= f.numwords
  {
    if k == 0 then 0 else
    NonNegative(f.WordBits(), k - 1);
    NonNegative(Pow2(f.WordBits() * (k - 1)), WordValue(f, Word(f, bs, k - 1)));
    Packed(f, bs, k - 1) + Pow2(f.WordBits() * (k - 1)) * WordValue(f, Word(f, bs, k - 1))
  }

  lemma NonNegative(a: nat, b: nat)
    ensures 0 <= a * b
  {}

  /** No bit outside those in use is set. */
  ghost predicate CleanWord(f: Format, c: seq<Byte>)
    requires f.Valid()
  {
    forall b :: 0 <= b < |c| ==> c[b] < Pow2(f.Width(b))
  }

  ghost predicate Clean(f: Format, bs: seq<Byte>, k: nat)
    requires f.Valid() && |bs| == f.Size() && k <= f.numwords
  {
    forall j :: 0 <= j < k ==> CleanWord(f, Word(f, bs, j))
  }

  lemma {:induction false} WordBound(f: Format, c: seq<Byte>)
    requires f.Valid()
    ensures WordValue(f, c) < Pow2(f.BitsTo(|c|))
    decreases |c|
  {
    if c != [] {
      var b := |c| - 1;
      WordBound(f, c[..b]);
      NextBits(f, b);
      Pow2Add(f.BitsTo(b), f.Width(b));
      hide Pow2;
      Weighted(WordValue(f, c[..b]), Pow2(f.BitsTo(b)), Used(f, b, c[b]), Pow2(f.Width(b)));
    }
  }

  lemma Weighted(v: nat, p: nat, d: nat, q: nat)
    requires v < p && d < q
    ensures v + p * d < p * q
  {
    MulMonotone(d + 1, q, p);
  }

  lemma WordSnoc(f: Format, c: seq<Byte>, x: Byte)
    requires f.Valid()
    ensures WordValue(f, c + [x]) == WordValue(f, c) + Pow2(f.BitsTo(|c|)) * Used(f, |c|, x)
  {
    assert (c + [x])[..|c|] == c;
  }

  lemma {:induction false} PackedBound(f: Format, bs: seq<Byte>, k: nat)
    requires f.Valid() && |bs| == f.Size() && k <= f.numwords
    ensures Packed(f, bs, k) < Pow2(f.WordBits() * k)
    decreases k
  {
    hide Pow2, WordValue;
    if k == 0 {
      assert f.WordBits() * 0 == 0;
      PowZero();
    } else {
      PackedBound(f, bs, k - 1);
      WordBound(f, Word(f, bs, k - 1));
      WordBitsAre(f);
      WordUp(f, k - 1);
      Weighted(Packed(f, bs, k - 1), Pow2(f.WordBits() * (k - 1)), WordValue(f, Word(f, bs, k - 1)),
               Pow2(f.WordBits()));
    }
  }

  lemma WordUp(f: Format, k: nat)
    requires f.Valid()
    ensures Pow2(f.WordBits() * (k + 1)) == Pow2(f.WordBits() * k) * Pow2(f.WordBits())
  {
    assert f.WordBits() * (k + 1) == f.WordBits() * k + f.WordBits();
    Pow2Add(f.WordBits() * k, f.WordBits());
  }

  /** Only the words counted matter. */
  lemma {:induction false} PackedSame(f: Format, bs: seq<Byte>, cs: seq<Byte>, k: nat)
    requires f.Valid() && |bs| == |cs| == f.Size() && k <= f.numwords && forall j :: 0 <= j < k ==>
      Word(f, bs, j) == Word(f, cs, j)
    ensures Packed(f, bs, k) == Packed(f, cs, k) && (Clean(f, bs, k) ==> Clean(f, cs, k))
    decreases k
  {
    if k > 0 { PackedSame(f, bs, cs, k - 1); }
  }
}

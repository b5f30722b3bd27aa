/**
 * Buffers of whole bytes as numbers, and as the digits they are in memory.
 */
module PackBytes {
  import opened Bits
  import opened Digits
  import opened PackFormat

  //----------------------------------------------------------------------------
  // Only one buffer stands for a number

  lemma {:induction false} WordUnique(f: Format, c: seq<Byte>, d: seq<Byte>)
    requires f.Valid() && |c| == |d| && CleanWord(f, c) && CleanWord(f, d) && WordValue(f, c) == WordValue(f, d)
    ensures c == d
    decreases |c|
  {
    if c != [] {
      var b := |c| - 1;
      WordBound(f, c[..b]);
      WordBound(f, d[..b]);
      DivModUnique(c[b], Pow2(f.Width(b)), 0, c[b]);
      DivModUnique(d[b], Pow2(f.Width(b)), 0, d[b]);
      SameParts(WordValue(f, c[..b]), WordValue(f, d[..b]), Pow2(f.BitsTo(b)), c[b], d[b]);
      WordUnique(f, c[..b], d[..b]);
      assert c == c[..b] + [c[b]] && d == d[..b] + [d[b]];
    }
  }

  lemma SameParts(v: nat, w: nat, p: nat, x: int, y: int)
    requires v < p && w < p && v + p * x == w + p * y
    ensures v == w && x == y
  {
    assert p * x == x * p && p * y == y * p;
    DivModUnique(v + p * x, p, x, v);
    DivModUnique(w + p * y, p, y, w);
  }

  lemma {:induction false} WordsUnique(f: Format, bs: seq<Byte>, cs: seq<Byte>, k: nat)
    requires f.Valid() && |bs| == |cs| == f.Size() && k <= f.numwords && Clean(f, bs, k) && Clean(f, cs, k)
             && Packed(f, bs, k) == Packed(f, cs, k)
    ensures forall j :: 0 <= j < k ==> Word(f, bs, j) == Word(f, cs, j)
    decreases k
  {
    hide Pow2, WordValue, Word, Format.Size;
    if k > 0 {
      PackedBound(f, bs, k - 1);
      PackedBound(f, cs, k - 1);
      SameParts(Packed(f, bs, k - 1), Packed(f, cs, k - 1), Pow2(f.WordBits() * (k - 1)),
                WordValue(f, Word(f, bs, k - 1)), WordValue(f, Word(f, cs, k - 1)));
      WordUnique(f, Word(f, bs, k - 1), Word(f, cs, k - 1));
      WordsUnique(f, bs, cs, k - 1);
    }
  }

  /** Every byte of the buffer belongs to a word. */
  lemma Covered(f: Format, j: nat) returns (k: nat, b: nat)
    requires f.Valid() && j < f.Size()
    ensures k < f.numwords && b < f.wordsize && f.Place(k, b) == j
  {
    var i, r := j / f.wordsize, j % f.wordsize;
    assert j == i * f.wordsize + r;
    if i >= f.numwords { MulMonotone(f.numwords, i, f.wordsize); }
    k := if f.msword then f.numwords - 1 - i else i;
    b := if f.msbyte then f.wordsize - 1 - r else r;
  }

  /** Equal numbers and no stray bits: equal buffers. */
  lemma PackedUnique(f: Format, bs: seq<Byte>, cs: seq<Byte>)
    requires f.Valid() && |bs| == |cs| == f.Size() && Clean(f, bs, f.numwords) && Clean(f, cs, f.numwords)
    requires Packed(f, bs, f.numwords) == Packed(f, cs, f.numwords)
    ensures bs == cs
  {
    WordsUnique(f, bs, cs, f.numwords);
    hide Packed, Clean, Format.Size, Format.Place;
    forall j | 0 <= j < |bs| ensures bs[j] == cs[j] {
      var k, b := Covered(f, j);
      assert Word(f, bs, k)[b] == Word(f, cs, k)[b];
    }
  }

  //----------------------------------------------------------------------------
  // Numbers as bytes

  /** The number of a byte sequence, the least significant byte first. */
  function BytesVal(bs: seq<Byte>): nat
  {
    if bs == [] then 0 else bs[0] + 256 * BytesVal(bs[1..])
  }

  lemma {:induction false} BytesAppend(s: seq<Byte>, t: seq<Byte>)
    ensures BytesVal(s + t) == BytesVal(s) + Pow2(8 * |s|) * BytesVal(t)
    decreases |s|
  {
    if s == [] {
      assert s + t == t;
    } else {
      BytesAppend(s[1..], t);
      assert (s + t)[1..] == s[1..] + t;
      Pow2Values();
      Pow2Add(8, 8 * (|s| - 1));
      Scaled(256, Pow2(8 * (|s| - 1)), BytesVal(t));
    }
  }

  lemma Scaled(a: int, p: int, v: int)
    ensures a * (p * v) == (a * p) * v
  {}

  lemma {:induction false} BytesBound(bs: seq<Byte>)
    ensures BytesVal(bs) < Pow2(8 * |bs|)
    decreases |bs|
  {
    if bs != [] {
      BytesBound(bs[1..]);
      Pow2Values();
      Pow2Add(8, 8 * (|bs| - 1));
    }
  }

  lemma {:induction false} ZeroBytesVal(bs: seq<Byte>)
    requires forall i :: 0 <= i < |bs| ==> bs[i] == 0
    ensures BytesVal(bs) == 0
    decreases |bs|
  {
    if bs != [] { ZeroBytesVal(bs[1..]); }
  }

  /** Without nails a word is just its bytes. */
  lemma {:induction false} PlainWord(f: Format, c: seq<Byte>)
    requires f.Valid() && f.nails == 0 && |c| <= f.wordsize
    ensures WordValue(f, c) == BytesVal(c) && CleanWord(f, c)
    decreases |c|
  {
    Pow2Values();
    if c != [] {
      var b := |c| - 1;
      PlainWord(f, c[..b]);
      assert c == c[..b] + [c[b]];
      BytesAppend(c[..b], [c[b]]);
      DivModUnique(c[b], 256, 0, c[b]);
      assert BytesVal([c[b]]) == c[b] by { assert [c[b]][1..] == []; }
    }
  }

  /** The first k words, one after the other. */
  function Logical(f: Format, bs: seq<Byte>, k: nat): seq<Byte>
    requires f.Valid() && |bs| == f.Size() && k <= f.numwords
  {
    if k == 0 then [] else Logical(f, bs, k - 1) + Word(f, bs, k - 1)
  }

  lemma {:induction false} LogicalLength(f: Format, bs: seq<Byte>, k: nat)
    requires f.Valid() && |bs| == f.Size() && k <= f.numwords
    ensures |Logical(f, bs, k)| == f.wordsize * k
    decreases k
  {
    hide Word, Format.Size;
    if k == 0 {
      assert f.wordsize * 0 == 0;
    } else {
      LogicalLength(f, bs, k - 1);
      assert f.wordsize * k == f.wordsize * (k - 1) + f.wordsize;
    }
  }

  /** Without nails the number is that of the bytes. */
  lemma {:induction false} PlainPacked(f: Format, bs: seq<Byte>, k: nat)
    requires f.Valid() && f.nails == 0 && |bs| == f.Size() && k <= f.numwords
    ensures Packed(f, bs, k) == BytesVal(Logical(f, bs, k)) && Clean(f, bs, k)
    decreases k
  {
    hide Word, Format.Size, Pow2, WordValue, BytesVal, CleanWord;
    if k == 0 {
      NoBytes();
    } else {
      PlainPacked(f, bs, k - 1);
      PlainWord(f, Word(f, bs, k - 1));
      LogicalLength(f, bs, k - 1);
      BytesAppend(Logical(f, bs, k - 1), Word(f, bs, k - 1));
      assert 8 * (f.wordsize * (k - 1)) == f.WordBits() * (k - 1);
    }
  }

  lemma NoBytes()
    ensures BytesVal([]) == 0
  {}

  /** In the order of the machine the buffer is the number. */
  lemma {:induction false} LittleEndian(f: Format, bs: seq<Byte>, k: nat)
    requires f.Valid() && !f.msword && !f.msbyte && |bs| == f.Size() && k <= f.numwords
    ensures f.wordsize * k <= |bs| && Logical(f, bs, k) == bs[..f.wordsize * k]
    decreases k
  {
    LogicalLength(f, bs, k);
    MulMonotone(k, f.numwords, f.wordsize);
    if k > 0 {
      LittleEndian(f, bs, k - 1);
      assert f.wordsize * k == f.wordsize * (k - 1) + f.wordsize;
      assert f.WordStart(k - 1) == f.wordsize * (k - 1);
      assert Word(f, bs, k - 1) == bs[f.wordsize * (k - 1)..f.wordsize * k];
    }
  }

  //----------------------------------------------------------------------------
  // Digits in memory

  /** The bytes of a digit on a little-endian machine. */
  function DigitBytes(d: Digit): (bs: seq<Byte>)
    ensures |bs| == 4
  {
    [d % 256, d / 256 % 256, d / 65536 % 256, d / 16777216]
  }

  function BytesOf(ds: seq<Digit>): (bs: seq<Byte>)
    ensures |bs| == 4 * |ds|
  {
    if ds == [] then [] else DigitBytes(ds[0]) + BytesOf(ds[1..])
  }

  lemma DigitParts(d: Digit)
    ensures d == d % 256 + 256 * (d as int / 256 % 256) + 65536 * (d as int / 65536 % 256)
            + 16777216 * (d as int / 16777216)
  {
    var a := d as int / 256;
    var b := a / 256;
    var c := b / 256;
    DivModUnique(d, 65536, b, 256 * (a % 256) + d % 256);
    DivModUnique(d, 16777216, c, 65536 * (b % 256) + 256 * (a % 256) + d % 256);
  }

  lemma DigitBytesVal(d: Digit)
    ensures BytesVal(DigitBytes(d)) == d
  {
    var bs := DigitBytes(d);
    DigitParts(d);
    FourBytes(bs);
  }

  lemma FourBytes(bs: seq<Byte>)
    requires |bs| == 4
    ensures BytesVal(bs) == bs[0] as int + 256 * bs[1] as int + 65536 * bs[2] as int + 16777216 * bs[3] as int
  {
    assert bs[3..][1..] == [] && bs[2..][1..] == bs[3..] && bs[1..][1..] == bs[2..];
    assert BytesVal(bs[3..]) == bs[3];
    assert BytesVal(bs[2..]) == bs[2] + 256 * BytesVal(bs[3..]);
    assert BytesVal(bs[1..]) == bs[1] + 256 * BytesVal(bs[2..]);
  }

  lemma {:induction false} BytesOfVal(ds: seq<Digit>)
    ensures BytesVal(BytesOf(ds)) == Val(ds)
    decreases |ds|
  {
    if ds != [] {
      BytesOfVal(ds[1..]);
      DigitBytesVal(ds[0]);
      BytesAppend(DigitBytes(ds[0]), BytesOf(ds[1..]));
      Pow2Values();
    }
  }
}

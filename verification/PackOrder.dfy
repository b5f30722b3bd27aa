/**
 * Words of whole digits: byte and word order as permutations of digits.
 */
module PackOrder {
  import opened Bits
  import opened Digits
  import opened PackFormat
  import opened PackBytes

  function FromBytes(a: Byte, b: Byte, c: Byte, e: Byte): Digit
  {
    a as int + 256 * b as int + 65536 * c as int + 16777216 * e as int
  }

  lemma BytesBack(a: Byte, b: Byte, c: Byte, e: Byte)
    ensures DigitBytes(FromBytes(a, b, c, e)) == [a, b, c, e]
  {
    var d: int := FromBytes(a, b, c, e);
    DivModUnique(d, 256, b as int + 256 * c as int + 65536 * e as int, a);
    DivModUnique(b as int + 256 * c as int + 65536 * e as int, 256, c as int + 256 * e as int, b);
    DivModUnique(d, 65536, c as int + 256 * e as int, a as int + 256 * b as int);
    DivModUnique(c as int + 256 * e as int, 256, e, c);
    DivModUnique(d, 16777216, e, a as int + 256 * b as int + 65536 * c as int);
  }

  lemma BytesForth(d: Digit)
    ensures var bs := DigitBytes(d); FromBytes(bs[0], bs[1], bs[2], bs[3]) == d
  {
    DigitParts(d);
  }

  /** `swap_bdigit`: the bytes of a digit in the opposite order. */
  function SwapDigit(d: Digit): Digit
  {
    var bs := DigitBytes(d);
    FromBytes(bs[3], bs[2], bs[1], bs[0])
  }

  function SwapAll(ds: seq<Digit>): (r: seq<Digit>)
    ensures |r| == |ds| && forall i :: 0 <= i < |ds| ==> r[i] == SwapDigit(ds[i])
  {
    seq(|ds|, i requires 0 <= i < |ds| => SwapDigit(ds[i]))
  }

  function Rev<T>(s: seq<T>): (r: seq<T>)
    ensures |r| == |s| && forall i :: 0 <= i < |s| ==> r[i] == s[|s| - 1 - i]
  {
    seq(|s|, i requires 0 <= i < |s| => s[|s| - 1 - i])
  }

  lemma RevRev<T>(s: seq<T>)
    ensures Rev(Rev(s)) == s
  {}

  lemma SwapTwice(d: Digit)
    ensures SwapDigit(SwapDigit(d)) == d
  {
    hide FromBytes, DigitBytes;
    var bs := DigitBytes(d);
    BytesForth(d);
    BytesBack(bs[3], bs[2], bs[1], bs[0]);
  }

  lemma SwapSwap(ds: seq<Digit>)
    ensures SwapAll(SwapAll(ds)) == ds
  {
    hide SwapDigit;
    forall i | 0 <= i < |ds| ensures SwapAll(SwapAll(ds))[i] == ds[i] { SwapTwice(ds[i]); }
  }

  lemma RevSwap(ds: seq<Digit>)
    ensures Rev(SwapAll(ds)) == SwapAll(Rev(ds))
  {
    hide SwapDigit;
  }

  lemma SwapBytes(d: Digit)
    ensures DigitBytes(SwapDigit(d)) == Rev(DigitBytes(d))
  {
    var bs := DigitBytes(d);
    BytesBack(bs[3], bs[2], bs[1], bs[0]);
    assert |bs| == 4;
    hide FromBytes, DigitBytes;
  }

  lemma RevAppend<T>(s: seq<T>, t: seq<T>)
    ensures Rev(s + t) == Rev(t) + Rev(s)
  {}

  lemma {:induction false} BytesOfAppend(s: seq<Digit>, t: seq<Digit>)
    ensures BytesOf(s + t) == BytesOf(s) + BytesOf(t)
    decreases |s|
  {
    hide DigitBytes;
    if s == [] {
      assert s + t == t;
    } else {
      BytesOfAppend(s[1..], t);
      assert (s + t)[1..] == s[1..] + t;
    }
  }

  /** Bytes in the opposite order: swapped digits in the opposite order. */
  lemma {:induction false} RevBytes(ds: seq<Digit>)
    ensures Rev(BytesOf(ds)) == BytesOf(Rev(SwapAll(ds)))
    decreases |ds|
  {
    hide DigitBytes, SwapDigit, Rev, SwapAll;
    if ds == [] {
      NothingReversed();
    } else {
      var d, t := ds[0], ds[1..];
      assert BytesOf(ds) == DigitBytes(d) + BytesOf(t);
      BytesOfOne(SwapDigit(d));
      hide BytesOf;
      RevBytes(t);
      SwapBytes(d);
      RevAppend(DigitBytes(d), BytesOf(t));
      SwapCons(ds);
      BytesOfAppend(Rev(SwapAll(t)), [SwapDigit(d)]);
    }
  }

  lemma NothingReversed()
    ensures Rev(BytesOf([])) == BytesOf(Rev(SwapAll([])))
  {}

  lemma BytesOfOne(d: Digit)
    ensures BytesOf([d]) == DigitBytes(d)
  {
    assert [d][1..] == [];
  }

  lemma SwapCons(ds: seq<Digit>)
    requires ds != []
    ensures Rev(SwapAll(ds)) == Rev(SwapAll(ds[1..])) + [SwapDigit(ds[0])]
  {
    hide SwapDigit;
  }

  lemma BytesOfSlice(ds: seq<Digit>, a: nat, b: nat)
    requires a <= b <= |ds|
    ensures BytesOf(ds)[4 * a..4 * b] == BytesOf(ds[a..b])
  {
    hide BytesOf;
    ThreeParts(ds, a, b);
    BytesOfParts(ds, ds[..a], ds[a..b], ds[b..], 4 * a, 4 * b);
  }

  lemma ThreeParts(ds: seq<Digit>, a: nat, b: nat)
    requires a <= b <= |ds|
    ensures ds == ds[..a] + ds[a..b] + ds[b..]
  {}

  lemma BytesOfParts(ds: seq<Digit>, x: seq<Digit>, y: seq<Digit>, z: seq<Digit>, p: nat, q: nat)
    requires ds == x + y + z && p == 4 * |x| && q == 4 * |x| + 4 * |y|
    ensures q <= |BytesOf(ds)| && BytesOf(ds)[p..q] == BytesOf(y)
  {
    hide BytesOf;
    BytesOfAppend(x, y);
    BytesOfAppend(x + y, z);
    Middle(BytesOf(ds), BytesOf(x), BytesOf(y), BytesOf(z), p, q);
  }

  lemma Middle(w: seq<Byte>, x: seq<Byte>, y: seq<Byte>, z: seq<Byte>, p: nat, q: nat)
    requires w == x + y + z && p == |x| && q == |x| + |y|
    ensures w[p..q] == y
  {}

  //----------------------------------------------------------------------------
  // Words

  function Offset(i: nat, per: nat): nat { i * per }

  /** The digits of the i-th word in the buffer. */
  function Part(ds: seq<Digit>, per: nat, i: nat): seq<Digit>
    requires Offset(i, per) + per <= |ds|
  {
    ds[Offset(i, per)..Offset(i, per) + per]
  }

  /** Formats of words of whole digits. */
  predicate Whole(f: Format, per: nat) { f.Valid() && f.nails == 0 && f.wordsize == 4 * per }

  /** Where word k is in the buffer. */
  function Where(f: Format, k: nat): nat
    requires k < f.numwords
  {
    if f.msword then f.numwords - 1 - k else k
  }

  lemma PartInside(f: Format, per: nat, i: nat, n: nat)
    requires Whole(f, per) && i < f.numwords && n == Offset(f.numwords, per)
    ensures Offset(i, per) + per <= n && f.Size() == 4 * n
  {
    OffsetInside(i, per, f.numwords);
    FourTimes(f.numwords, per);
  }

  lemma OffsetInside(i: nat, per: nat, n: nat)
    requires i < n
    ensures Offset(i, per) + per == Offset(i + 1, per) <= Offset(n, per)
  {
    MulMonotone(i + 1, n, per);
  }

  /** Word k of the buffer that is these digits in memory. */
  lemma WordOfDigits(f: Format, per: nat, ds: seq<Digit>, k: nat)
    requires Whole(f, per) && k < f.numwords && |ds| == Offset(f.numwords, per)
    ensures Offset(Where(f, k), per) + per <= |ds| && |BytesOf(ds)| == f.Size()
    ensures var e := Part(ds, per, Where(f, k));
            Word(f, BytesOf(ds), k) == BytesOf(if f.msbyte then Rev(SwapAll(e)) else e)
  {
    hide SwapDigit, SwapAll, BytesOf, Rev, Word, Format.Size, Offset;
    var i := Where(f, k);
    PartInside(f, per, i, |ds|);
    var e := Part(ds, per, i);
    FourTimes(i, per);
    var s := Offset(i, per);
    assert f.WordStart(k) == 4 * s;
    hide Format.WordStart;
    BytesOfSlice(ds, s, s + per);
    RevBytes(e);
    WordSlice(f, BytesOf(ds), k, 4 * s);
  }

  lemma FourTimes(i: nat, per: nat)
    ensures i * (4 * per) == 4 * Offset(i, per)
  {}

  lemma WordSlice(f: Format, bs: seq<Byte>, k: nat, s: nat)
    requires f.Valid() && |bs| == f.Size() && k < f.numwords && s == f.WordStart(k)
    ensures s + f.wordsize <= |bs|
    ensures var c := bs[s..s + f.wordsize]; Word(f, bs, k) == if f.msbyte then Rev(c) else c
  {
    Inside(f, k);
  }

  /** If every word holds its part of the digits, the buffer holds their number. */
  lemma {:induction false} PartsTo(f: Format, per: nat, bs: seq<Byte>, ds: seq<Digit>, k: nat)
    requires Whole(f, per) && |ds| == Offset(f.numwords, per) && |bs| == f.Size() && k <= f.numwords
    requires forall j :: 0 <= j < f.numwords ==> Offset(j, per) + per <= |ds|
    requires forall j :: 0 <= j < f.numwords ==> Word(f, bs, j) == BytesOf(Part(ds, per, j))
    ensures Offset(k, per) <= |ds| && Logical(f, bs, k) == BytesOf(ds[..Offset(k, per)])
    decreases k
  {
    hide BytesOf, Word, Format.Size, Offset;
    if k == 0 {
      NoOffset(per);
      NoBytesOf();
    } else {
      PartsTo(f, per, bs, ds, k - 1);
      OffsetInside(k - 1, per, f.numwords);
      assert ds[..Offset(k, per)] == ds[..Offset(k - 1, per)] + Part(ds, per, k - 1);
      BytesOfAppend(ds[..Offset(k - 1, per)], Part(ds, per, k - 1));
    }
  }

  lemma NoOffset(per: nat)
    ensures Offset(0, per) == 0
  {}

  lemma NoBytesOf()
    ensures BytesOf([]) == []
  {}

  lemma PartsPacked(f: Format, per: nat, bs: seq<Byte>, ds: seq<Digit>)
    requires Whole(f, per) && |ds| == Offset(f.numwords, per) && |bs| == f.Size()
    requires forall j :: 0 <= j < f.numwords ==> Offset(j, per) + per <= |ds|
    requires forall j :: 0 <= j < f.numwords ==> Word(f, bs, j) == BytesOf(Part(ds, per, j))
    ensures Packed(f, bs, f.numwords) == Val(ds) && Clean(f, bs, f.numwords)
  {
    PartsTo(f, per, bs, ds, f.numwords);
    assert ds[..Offset(f.numwords, per)] == ds;
    BytesOfVal(ds);
    PlainPacked(f, bs, f.numwords);
  }

  //----------------------------------------------------------------------------
  // The permutations

  /** The parts of a sequence in the opposite order are those of the reversed sequence, reversed. */
  lemma RevPart(ds: seq<Digit>, per: nat, n: nat, i: nat)
    requires |ds| == Offset(n, per) && i < n
    ensures Offset(i, per) + per <= |ds| && Offset(n - 1 - i, per) + per <= |ds|
    ensures Part(Rev(ds), per, i) == Rev(Part(ds, per, n - 1 - i))
  {
    MulMonotone(i + 1, n, per);
    MulMonotone(n - i, n, per);
    assert Offset(n - 1 - i, per) == Offset(n, per) - Offset(i, per) - per;
  }

  lemma SwapPart(ds: seq<Digit>, per: nat, i: nat)
    requires Offset(i, per) + per <= |ds|
    ensures Part(SwapAll(ds), per, i) == SwapAll(Part(ds, per, i))
  {
    hide SwapDigit;
  }

  /** Two neighbours in the order of their places do not overlap. */
  lemma PartsApart(per: nat, i: nat, j: nat)
    requires i != j
    ensures Offset(i, per) + per <= Offset(j, per) || Offset(j, per) + per <= Offset(i, per)
  {
    if i < j { MulMonotone(i + 1, j, per); } else { MulMonotone(j + 1, i, per); }
  }

  /** Every digit swapped. */
  method SwapDigits(w: array<Digit>)
    modifies w
    ensures w[..] == SwapAll(old(w[..]))
  {
    hide SwapDigit;
    var i := 0;
    while i < w.Length
      invariant 0 <= i <= w.Length && forall j :: 0 <= j < w.Length ==>
        w[j] == if j < i then SwapDigit(old(w[j])) else old(w[j])
    {
      w[i] := SwapDigit(w[i]);
      i := i + 1;
    }
  }

  /** `bary_swap`. */
  method Reverse(w: array<Digit>, off: nat, n: nat)
    requires off + n <= w.Length
    modifies w
    ensures w[off..off + n] == Rev(old(w[off..off + n]))
    ensures forall j :: 0 <= j < w.Length && (j < off || off + n <= j) ==> w[j] == old(w[j])
  {
    var p1: int, p2: int := off, off + n - 1;
    while p1 < p2
      invariant off <= p1 <= p2 + 2 && p1 - off == off + n - 1 - p2
      invariant forall j :: 0 <= j < w.Length && (j < off || off + n <= j) ==> w[j] == old(w[j])
      invariant forall j ::
        off <= j < off + n ==> w[j] == if j < p1 || j > p2 then old(w[off + off + n - 1 - j]) else old(w[j])
    {
      w[p1], w[p2] := w[p2], w[p1];
      p1, p2 := p1 + 1, p2 - 1;
    }
    IsReversed(old(w[..]), w[..], off, n);
  }

  lemma IsReversed(s: seq<Digit>, t: seq<Digit>, off: nat, n: nat)
    requires |s| == |t| && off + n <= |s| && forall j :: off <= j < off + n ==> t[j] == s[off + off + n - 1 - j]
    ensures t[off..off + n] == Rev(s[off..off + n])
  {}

  /** Every word reversed. */
  method ReverseWords(w: array<Digit>, per: nat, n: nat)
    requires w.Length == Offset(n, per)
    modifies w
    ensures forall i ::
      0 <= i < n ==> Offset(i, per) + per <= w.Length && Part(w[..], per, i) == Rev(Part(old(w[..]), per, i))
  {
    ghost var ds := w[..];
    hide Offset;
    forall i | 0 <= i < n ensures Offset(i, per) + per <= w.Length { OffsetInside(i, per, n); }
    NoOffset(per);
    var i, p := 0, 0;
    while i < n
      invariant 0 <= i <= n && p == Offset(i, per)
      invariant forall j :: 0 <= j < n ==>
        && Offset(j, per) + per <= w.Length
        && Part(w[..], per, j) == if j < i then Rev(Part(ds, per, j)) else Part(ds, per, j)
    {
      ghost var es := w[..];
      Reverse(w, p, per);
      OneReversed(es, w[..], per, n, i);
      OffsetInside(i, per, n);
      p := p + per;
      i := i + 1;
    }
  }

  lemma OneReversed(es: seq<Digit>, fs: seq<Digit>, per: nat, n: nat, i: nat)
    requires |es| == |fs| == Offset(n, per) && i < n && Offset(i, per) + per <= |es|
    requires fs[Offset(i, per)..Offset(i, per) + per] == Rev(es[Offset(i, per)..Offset(i, per) + per])
    requires forall j :: 0 <= j < |es| && (j < Offset(i, per) || Offset(i, per) + per <= j) ==> fs[j] == es[j]
    ensures forall j :: 0 <= j < n ==>
      && Offset(j, per) + per <= |es|
      && Part(fs, per, j) == if j == i then Rev(Part(es, per, j)) else Part(es, per, j)
  {
    hide Offset;
    forall j | 0 <= j < n
      ensures Offset(j, per) + per <= |es|
      ensures Part(fs, per, j) == if j == i then Rev(Part(es, per, j)) else Part(es, per, j)
    {
      OffsetInside(j, per, n);
      if j != i {
        PartsApart(per, i, j);
        SameSlice(es, fs, Offset(i, per), Offset(i, per) + per, Offset(j, per), Offset(j, per) + per);
      }
    }
  }

  lemma SameSlice(es: seq<Digit>, fs: seq<Digit>, a: nat, b: nat, c: nat, d: nat)
    requires |es| == |fs| && c <= d <= |es| && (d <= a || b <= c)
    requires forall j :: 0 <= j < |es| && (j < a || b <= j) ==> fs[j] == es[j]
    ensures es[c..d] == fs[c..d]
  {}
}

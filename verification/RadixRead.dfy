/**
 * Reading a number in a base: digit by digit, or in chunks that are combined pairwise.
 */
module RadixRead {
  import opened Bits
  import opened Digits
  import opened AddSub
  import opened Multiply
  import opened KaratsubaSteps
  import opened RadixText
  import opened RadixWrite

  /** The digits among the characters; `conv_digit` gives -1 for what is skipped. */
  function Clean(chars: seq<int>): Text
  {
    if chars == [] then [] else
    var rest, c := Clean(chars[..|chars| - 1]), chars[|chars| - 1];
    if c < 0 then rest else rest + [c]
  }

  ghost predicate CharsInBase(base: nat, chars: seq<int>) { forall i :: 0 <= i < |chars| ==> chars[i] < base }

  lemma {:induction false} CleanInBase(base: nat, chars: seq<int>)
    requires CharsInBase(base, chars)
    ensures InBase(base, Clean(chars))
    decreases |chars|
  {
    if chars != [] { CleanInBase(base, chars[..|chars| - 1]); }
  }

  lemma {:induction false} ReadBound(base: nat, t: Text)
    requires InBase(base, t)
    ensures Read(base, t) < Power(base, |t|)
    decreases |t|
  {
    if t != [] {
      var s, d := t[..|t| - 1], t[|t| - 1];
      ReadBound(base, s);
      BoundStep(Read(base, s), Power(base, |s|), base, d);
    }
  }

  lemma BoundStep(r: nat, p: nat, base: nat, d: nat)
    requires r < p && d < base
    ensures r * base + d < base * p
  {
    MulMonotone(r + 1, p, base);
  }

  //----------------------------------------------------------------------------
  // Digit by digit

  lemma BaseDigit(num: nat, d: Digit, base: nat)
    requires 2 <= base <= 36 && num < base
    ensures var t := num + base * d;
            base * d == d as int * base && t < 0x1_0000_0000_0000_0000 && 0 <= Dn(t) < base
  {
    MulMonotone(d, 0xFFFF_FFFF, base);
  }

  /** The inner loop: the digits times the base, plus a carry. */
  method TimesBaseLoop(z: Span, base: nat, c: nat) returns (num: DDigit)
    requires z.Valid() && 2 <= base <= 36 && c < base
    modifies z.buf
    ensures var cols := Columns(base, old(z.Digits()), 0, [], z.len);
            num == Carry(cols, c, z.len) < base && Emitted(z, cols, c, z.len)
  {
    hide Columns, Span.Digits, Shl, Carry, DigitOf, Lo, Dn;
    ghost var zs := z.Digits();
    SpanElements(z);
    ghost var cols := Columns(base, zs, 0, [], z.len);
    CarryStart(cols, c);
    num := c;
    var i := 0;
    while i < z.len
      invariant i <= z.len && num == Carry(cols, c, i) < base && Emitted(z, cols, c, i)
    {
      CarryStep(cols, c, i);
      BaseDigit(num, zs[i], base);
      num := num as int + z.buf[z.off + i] as int * base;
      z.buf[z.off + i] := Lo(num);
      num := Dn(num);
      i := i + 1;
    }
  }

  method TimesBase(z: Span, base: nat, c: nat) returns (num: DDigit)
    requires z.Valid() && 2 <= base <= 36 && c < base
    modifies z.buf
    ensures num < base && z.Value() + Shl(num, z.len) == base * old(z.Value()) + c
    ensures forall s: Span {:trigger s.Digits()} ::
      old(allocated(s)) && s.Valid() && s.Disjoint(z) ==> s.Digits() == old(s.Digits())
  {
    hide Val, Shl, Columns, Carry, DigitOf;
    ghost var zs := z.Digits();
    num := TimesBaseLoop(z, base, c);
    ColumnsSum(base, zs, 0, [], z.len);
    ColumnValue(z.Digits(), Columns(base, zs, 0, [], z.len), c);
  }

  /** One more digit; the number may get one digit longer. */
  method Append(z: Span, blen: nat, base: nat, c: nat, ghost v: nat) returns (blen': nat)
    requires z.Valid() && 2 <= base <= 36 && c < base && 1 <= blen <= z.len
    requires z.Sub(0, blen).Value() == v && z.Sub(blen, z.len - blen).Value() == 0 && base * v + c < Pow(z.len)
    modifies z.buf
    ensures 1 <= blen' <= z.len && z.Sub(0, blen').Value() == base * v + c && z.Sub(blen', z.len - blen').Value() == 0
  {
    hide Val, Shl, Span.Digits, Pow;
    var l := z.Sub(0, blen);
    var num := TimesBase(l, base, c);
    blen' := blen;
    ShlUnit(blen);
    if num != 0 {
      RoomLeft(l.Value(), num, blen, base * v + c, z.len);
      var t, rest := z.Sub(blen, 1), z.Sub(blen + 1, z.len - blen - 1);
      var up := z.Sub(0, blen + 1);
      SpanSplit(z.Sub(blen, z.len - blen), 1);
      assert z.Sub(blen, z.len - blen).Sub(0, 1) == t && z.Sub(blen, z.len - blen).Sub(1, z.len - blen - 1) == rest;
      NoValue(t.Value(), rest.Value());
      var none := TimesBase(t, base, num);
      SpanBound(t);
      OneDigitCarry(t.Value(), none, num);
      blen' := blen + 1;
      SpanSplit(up, blen);
      assert up.Sub(0, blen) == l && up.Sub(blen, 1) == t;
    }
  }

  /** A carry means that there is room for it. */
  lemma RoomLeft(l: nat, num: nat, blen: nat, v: nat, n: nat)
    requires l + Shl(num, blen) == v < Pow(n) && num > 0 && blen <= n
    ensures blen < n
  {
    hide Shl, Pow;
    ShlMonotone(1, num, blen);
    ShlUnit(blen);
  }

  lemma NoValue(t: nat, rest: nat)
    requires t + Shl(rest, 1) == 0
    ensures t == 0 && rest == 0
  {
    ShlOne(rest);
  }

  lemma OneDigitCarry(t: nat, carry: nat, num: nat)
    requires t + Shl(carry, 1) == num < 36 && t < Pow(1)
    ensures carry == 0 && t == num
  {
    ShlOne(carry);
  }

  /** `str2big_normal`. */
  method ReadNormal(chars: seq<int>, base: nat, n: nat) returns (ds: seq<Digit>)
    requires 2 <= base <= 36 && CharsInBase(base, chars) && 1 <= n && Power(base, |Clean(chars)|) <= Pow(n)
    ensures Val(ds) == Read(base, Clean(chars))
  {
    hide Val, Shl, Pow, Read, Power;
    var a := new Digit[n](_ => 0);
    var z := Span(a, 0, n);
    var blen: nat := 1;
    ValZeros(z.Sub(0, 1).Digits());
    ValZeros(z.Sub(1, n - 1).Digits());
    ReadNothing(base);
    hide Span.Digits;
    for i := 0 to |chars|
      invariant 1 <= blen <= n && z.Sub(0, blen).Value() == Read(base, Clean(chars[..i]))
                && z.Sub(blen, n - blen).Value() == 0
    {
      var c := chars[i];
      Next(base, chars, i, n);
      if c >= 0 {
        blen := Append(z, blen, base, c, Read(base, Clean(chars[..i])));
      }
    }
    assert chars[..|chars|] == chars;
    SpanSplit(z, blen);
    ShlUnit(blen);
    ds := a[..];
    Whole(z);
  }

  lemma Whole(z: Span)
    requires z.Valid() && z.off == 0 && z.len == z.buf.Length
    ensures z.Digits() == z.buf[..]
  {}

  lemma CleanNext(chars: seq<int>, i: nat)
    requires i < |chars|
    ensures Clean(chars[..i + 1]) == if chars[i] < 0 then Clean(chars[..i]) else Clean(chars[..i]) + [chars[i]]
  {
    assert chars[..i + 1][..i] == chars[..i];
  }

  lemma Next(base: nat, chars: seq<int>, i: nat, n: nat)
    requires 2 <= base && CharsInBase(base, chars) && i < |chars| && Power(base, |Clean(chars)|) <= Pow(n)
    ensures Clean(chars[..i + 1]) == if chars[i] < 0 then Clean(chars[..i]) else Clean(chars[..i]) + [chars[i]]
    ensures chars[i] >= 0 ==>
      Read(base, Clean(chars[..i + 1])) == base * Read(base, Clean(chars[..i])) + chars[i] < Pow(n)
  {
    hide Pow, Clean, Read, Power;
    CleanNext(chars, i);
    if chars[i] >= 0 {
      ReadSnoc(base, Clean(chars[..i]), chars[i]);
      CleanInBase(base, chars[..i + 1]);
      ReadBound(base, Clean(chars[..i + 1]));
      CleanGrows(chars, i + 1);
      PowerGrows(base, |Clean(chars[..i + 1])|, |Clean(chars)|);
    }
  }

  lemma {:induction false} CleanGrows(chars: seq<int>, i: nat)
    requires i <= |chars|
    ensures |Clean(chars[..i])| <= |Clean(chars)|
    decreases |chars|
  {
    if i < |chars| {
      CleanGrows(chars[..|chars| - 1], i);
      assert chars[..|chars| - 1][..i] == chars[..i];
    } else {
      assert chars[..i] == chars;
    }
  }

  lemma {:induction false} PowerGrows(base: nat, m: nat, n: nat)
    requires 1 <= base && m <= n
    ensures Power(base, m) <= Power(base, n)
    decreases n - m
  {
    if m < n {
      PowerPositive(base, n - 1);
      MulMonotone(1, base, Power(base, n - 1));
      PowerGrows(base, m, n - 1);
    }
  }

  //----------------------------------------------------------------------------
  // Chunks

  /** The digits of v from place k on. */
  function Above(base: nat, v: nat, k: nat): nat
    requires base >= 2
  {
    PowerPositive(base, k);
    v / Power(base, k)
  }

  /** The next m of them. */
  function Slice(base: nat, v: nat, k: nat, m: nat): nat
    requires base >= 2
  {
    PowerPositive(base, m);
    Above(base, v, k) % Power(base, m)
  }

  lemma DivTwice(v: nat, a: nat, b: nat)
    requires a > 0 && b > 0
    ensures a * b > 0 && v / (a * b) == (v / a) / b
  {
    var q, r := v / a, v % a;
    var s, t := q / b, q % b;
    assert v == (s * b + t) * a + r;
    assert (s * b + t) * a == s * (a * b) + t * a;
    MulMonotone(t, b - 1, a);
    DivModUnique(v, a * b, s, t * a + r);
  }

  lemma ModTwice2(w: nat, a: nat, b: nat)
    requires a > 0 && b > 0
    ensures a * b > 0 && w % (a * b) == w % a + a * ((w / a) % b)
  {
    var q, r := w / a, w % a;
    var s, t := q / b, q % b;
    assert w == (s * b + t) * a + r;
    assert (s * b + t) * a == s * (a * b) + t * a;
    MulMonotone(t, b - 1, a);
    DivModUnique(w, a * b, s, t * a + r);
  }

  lemma AboveTwice(base: nat, v: nat, k: nat, m: nat)
    requires base >= 2
    ensures Power(base, m) > 0 && Above(base, v, k + m) == Above(base, v, k) / Power(base, m)
  {
    PowerPositive(base, k);
    PowerPositive(base, m);
    PowerAdd(base, k, m);
    hide Power;
    DivTwice(v, Power(base, k), Power(base, m));
  }

  /** Two slices side by side. */
  lemma SliceJoin(base: nat, v: nat, k: nat, m: nat, n: nat)
    requires base >= 2
    ensures Slice(base, v, k, m + n) == Slice(base, v, k, m) + Power(base, m) * Slice(base, v, k + m, n)
  {
    PowerPositive(base, m);
    PowerPositive(base, n);
    PowerAdd(base, m, n);
    AboveTwice(base, v, k, m);
    hide Power, Above;
    ModTwice2(Above(base, v, k), Power(base, m), Power(base, n));
  }

  lemma SliceBound(base: nat, v: nat, k: nat, m: nat)
    requires base >= 2
    ensures Slice(base, v, k, m) < Power(base, m)
  {
    PowerPositive(base, m);
  }

  /** Beyond the end there is nothing. */
  lemma SliceBeyond(base: nat, v: nat, k: nat, m: nat)
    requires base >= 2 && Above(base, v, k) == 0
    ensures Slice(base, v, k, m) == 0
  {
    PowerPositive(base, m);
    DivModUnique(0, Power(base, m), 0, 0);
  }

  lemma {:induction false} AboveBeyond(base: nat, v: nat, k: nat, m: nat)
    requires base >= 2 && v < Power(base, k) && k <= m
    ensures Above(base, v, m) == 0
  {
    PowerGrows(base, k, m);
    DivModUnique(v, Power(base, m), 0, v);
  }

  /** A digit of a text. */
  lemma AboveText(base: nat, s: Text, t: Text)
    requires base >= 2 && InBase(base, t)
    ensures Above(base, Read(base, s + t), |t|) == Read(base, s)
  {
    ReadAppend(base, s, t);
    ReadBound(base, t);
    DivModUnique(Read(base, s + t), Power(base, |t|), Read(base, s), Read(base, t));
  }

  lemma SliceDigit(base: nat, s: Text, d: nat, t: Text)
    requires base >= 2 && InBase(base, t) && d < base
    ensures Slice(base, Read(base, s + ([d] + t)), |t|, 1) == d
  {
    assert s + ([d] + t) == (s + [d]) + t;
    AboveText(base, s + [d], t);
    ReadSnoc(base, s, d);
    assert Power(base, 1) == base * Power(base, 0) == base;
    DivModUnique(Read(base, s + [d]), base, Read(base, s), d);
  }

  lemma {:induction false} CleanSplit(chars: seq<int>, k: nat)
    requires k <= |chars|
    ensures Clean(chars) == Clean(chars[..k]) + Clean(chars[k..])
    decreases |chars|
  {
    if k == |chars| {
      assert chars[..k] == chars;
    } else {
      var init := chars[..|chars| - 1];
      CleanSplit(init, k);
      assert init[..k] == chars[..k] && init[k..] == chars[k..][..|chars[k..]| - 1];
    }
  }

  /** Two digits of chunks: the first i digits hold those of the lowest places. */
  ghost predicate ChunksTo(base: nat, nd: nat, v: nat, u: Span, i: nat)
    requires base >= 2 && u.Valid()
    reads u.buf
  {
    i <= u.len && forall j :: 0 <= j < i && j % 2 == 0 && j + 2 <= u.len ==>
      u.Sub(j, 2).Value() == Slice(base, v, nd * (j / 2), nd)
  }

  method StoreChunk(base: nat, nd: nat, ghost v: nat, u: Span, i: nat, dd: DDigit)
    requires base >= 2 && u.Valid() && i % 2 == 0 && i + 2 <= u.len && ChunksTo(base, nd, v, u, i)
             && dd == Slice(base, v, nd * (i / 2), nd)
    modifies u.buf
    ensures ChunksTo(base, nd, v, u, i + 2)
  {
    hide Val, Slice, Span.Digits;
    var c := u.Sub(i, 2);
    StoreDouble(c, dd);
  }

  method StoreDouble(c: Span, dd: DDigit)
    requires c.Valid() && c.len == 2
    modifies c.buf
    ensures c.Value() == dd
    ensures forall s: Span {:trigger s.Digits()} ::
      old(allocated(s)) && s.Valid() && s.Disjoint(c) ==> s.Digits() == old(s.Digits())
  {
    hide Val;
    c.buf[c.off] := Lo(dd);
    c.buf[c.off + 1] := Dn(dd);
    assert c.Digits() == [Lo(dd), Dn(dd)];
    ValPair(Lo(dd), Dn(dd));
  }

  /** What is known of a chunk being read: j digits of it, after nd * t complete ones. */
  ghost predicate InChunk(base: nat, nd: nat, v: nat, total: nat, left: nat, t: nat, j: nat, dd: nat, cb: nat, m: nat)
    requires base >= 2
  {
    && total == left + nd * t + j && dd == Slice(base, v, nd * t, j) && cb == Power(base, j)
    && m > 0 && j + m == if left + j < nd then left + j else nd
  }

  /** One more digit of the chunk. */
  lemma ChunkDigit(base: nat, nd: nat, v: nat, total: nat, left: nat, t: nat, j: nat, dd: nat, cb: nat, m: nat,
                   c: nat, p: DDigit)
    requires Based(base, nd, p) && InChunk(base, nd, v, total, left, t, j, dd, cb, m) && left > 0
    requires c == Slice(base, v, total - left, 1)
    ensures dd + c * cb == Slice(base, v, nd * t, j + 1) < p + 1 && cb * base == Power(base, j + 1) <= p
  {
    hide Slice, Power;
    SliceJoin(base, v, nd * t, j, 1);
    SliceBound(base, v, nd * t, j + 1);
    PowerGrows(base, j + 1, nd);
    PowerNext(base, j);
    assert c * cb == cb * c;
  }

  lemma PowerNext(base: nat, j: nat)
    ensures Power(base, j + 1) == Power(base, j) * base
  {}

  /** A chunk that is complete, or cut short by the end. */
  lemma ChunkDone(base: nat, nd: nat, v: nat, total: nat, t: nat, j: nat)
    requires base >= 2 && v < Power(base, total) && j <= nd && (j == nd || nd * t + j == total)
    ensures Slice(base, v, nd * t, j) == Slice(base, v, nd * t, nd)
  {
    hide Slice, Power;
    if j < nd {
      SliceJoin(base, v, nd * t, j, nd - j);
      AboveBeyond(base, v, total, total);
      SliceBeyond(base, v, total, nd - j);
      assert Power(base, j) * 0 == 0;
    }
  }

  /** The number of chunks. */
  lemma ChunkCount(total: nat, nd: nat, t: nat)
    requires nd > 0
    ensures nd * t < total <==> t < (total + nd - 1) / nd
  {
    var k := (total + nd - 1) / nd;
    assert nd * k <= total + nd - 1 < nd * k + nd by {
      assert total + nd - 1 == nd * k + (total + nd - 1) % nd;
    }
    if t < k { assert nd * t <= nd * (k - 1) == nd * k - nd; }
    if t >= k { assert nd * t >= nd * k; }
  }

  lemma NothingClean()
    ensures Clean([]) == []
  {}

  /** The first loop of `str2big_karatsuba`: from the last character on, chunks of as many
      digits as fit a double digit; the last chunk may be shorter. */
  method ReadChunks(chars: seq<int>, base: nat, nd: nat, p: DDigit, u: Span)
    requires Based(base, nd, p) && nd > 0 && CharsInBase(base, chars) && u.Valid()
    requires u.len == 2 * ((|Clean(chars)| + nd - 1) / nd)
    modifies u.buf
    ensures ChunksTo(base, nd, Read(base, Clean(chars)), u, u.len)
  {
    hide Val, Slice, Power, Read, Clean, Above, Span.Digits, ChunksTo, InChunk;
    NothingClean();
    ghost var d, total, count := Clean(chars), |Clean(chars)|, (|Clean(chars)| + nd - 1) / nd;
    ghost var v := Read(base, d);
    CleanInBase(base, chars);
    ReadBound(base, d);
    var i: nat, dd: DDigit, cb: DDigit, k: nat := 0, 0, 1, |chars|;
    ghost var t: nat, j: nat := 0, 0;
    var left := CountDigits(chars);
    var m: nat := if left < nd then left else nd;
    FirstChunk(base, nd, v, total);
    NoChunks(base, nd, v, u);
    assert chars[..k] == chars;
    while k > 0
      invariant k <= |chars| && left == |Clean(chars[..k])| && i == 2 * t && t <= count && ChunksTo(base, nd, v, u, i)
      invariant if left > 0 then InChunk(base, nd, v, total, left, t, j, dd, cb, m) else t == count
    {
      var c := chars[k - 1];
      LastChar(base, chars, k);
      k := k - 1;
      if c >= 0 {
        ghost var dd0, cb0 := dd, cb;
        dd, cb := TakeDigit(base, nd, p, v, total, left, t, j, dd, cb, m, c);
        left := left - 1;
        m := m - 1;
        if m == 0 {
          EndChunk(base, nd, v, total, left, t, j, dd0, cb0, count);
          StoreChunk(base, nd, v, u, i, dd);
          i := i + 2;
          dd, cb := 0, 1;
          m := if left < nd then left else nd;
          t, j := t + 1, 0;
        } else {
          j := j + 1;
        }
      }
    }
    assert chars[..k] == [];
  }

  /** The digit is added at its place. */
  method TakeDigit(base: nat, nd: nat, p: DDigit, ghost v: nat, ghost total: nat, ghost left: nat, ghost t: nat,
                   ghost j: nat,
                   dd: DDigit, cb: DDigit, ghost m: nat, c: nat) returns (dd': DDigit, cb': DDigit)
    requires Based(base, nd, p) && left > 0 && InChunk(base, nd, v, total, left, t, j, dd, cb, m)
    requires left <= total && c == Slice(base, v, total - left, 1)
    ensures dd' == Slice(base, v, nd * t, j + 1) && cb' == Power(base, j + 1)
    ensures m > 1 ==> InChunk(base, nd, v, total, left - 1, t, j + 1, dd', cb', m - 1)
    ensures m > 0 && (m > 1 ==> left > 1)
  {
    hide Slice, Power;
    ChunkDigit(base, nd, v, total, left, t, j, dd, cb, m, c, p);
    dd' := dd as int + c * cb as int;
    cb' := cb as int * base;
  }

  /** The chunk is complete; the next one begins, or everything is read. */
  lemma EndChunk(base: nat, nd: nat, v: nat, total: nat, left: nat, t: nat, j: nat, dd: nat, cb: nat, count: nat)
    requires base >= 2 && nd > 0 && v < Power(base, total) && InChunk(base, nd, v, total, left + 1, t, j, dd, cb, 1)
    requires count == (total + nd - 1) / nd
    ensures Slice(base, v, nd * t, j + 1) == Slice(base, v, nd * t, nd) && t < count
    ensures left > 0 ==> InChunk(base, nd, v, total, left, t + 1, 0, 0, 1, if left < nd then left else nd)
    ensures left == 0 ==> t + 1 == count
  {
    hide Slice, Power;
    ChunkDone(base, nd, v, total, t, j + 1);
    ChunkCount(total, nd, t);
    AfterChunk(base, nd, v, total, left, t, j + 1);
  }

  lemma NoChunks(base: nat, nd: nat, v: nat, u: Span)
    requires base >= 2 && u.Valid()
    ensures ChunksTo(base, nd, v, u, 0)
  {}

  /** The number of digits, which the caller has counted. */
  method CountDigits(chars: seq<int>) returns (n: nat)
    ensures n == |Clean(chars)|
  {
    n := 0;
    for i := 0 to |chars|
      invariant n == |Clean(chars[..i])|
    {
      assert chars[..i + 1][..i] == chars[..i];
      if chars[i] >= 0 { n := n + 1; }
    }
    assert chars[..|chars|] == chars;
  }

  lemma FirstChunk(base: nat, nd: nat, v: nat, total: nat)
    requires base >= 2 && nd > 0
    ensures total > 0 ==> InChunk(base, nd, v, total, total, 0, 0, 0, 1, if total < nd then total else nd)
    ensures total == 0 ==> (total + nd - 1) / nd == 0
  {
    assert nd * 0 == 0;
    EmptySlice(base, v, 0);
    if total == 0 { DivModUnique(nd - 1, nd, 0, nd - 1); }
  }

  lemma EmptySlice(base: nat, v: nat, k: nat)
    requires base >= 2
    ensures Slice(base, v, k, 0) == 0 && Power(base, 0) == 1
  {}

  /** The last character of what is left. */
  lemma LastChar(base: nat, chars: seq<int>, k: nat)
    requires base >= 2 && CharsInBase(base, chars) && 0 < k <= |chars|
    ensures Clean(chars[..k]) == if chars[k - 1] < 0 then Clean(chars[..k - 1])
      else Clean(chars[..k - 1]) + [chars[k - 1]]
    ensures |Clean(chars[..k])| <= |Clean(chars)|
    ensures chars[k - 1] >= 0 ==>
      chars[k - 1] == Slice(base, Read(base, Clean(chars)), |Clean(chars)| - |Clean(chars[..k])|, 1)
  {
    hide Slice, Read;
    assert chars[..k][..k - 1] == chars[..k - 1];
    CleanSplit(chars, k);
    if chars[k - 1] >= 0 {
      CleanInBase(base, chars[k..]);
      SliceDigit(base, Clean(chars[..k - 1]), chars[k - 1], Clean(chars[k..]));
      assert Clean(chars) == Clean(chars[..k - 1]) + ([chars[k - 1]] + Clean(chars[k..]));
    }
  }

  /** The next chunk begins, or everything is read. */
  lemma AfterChunk(base: nat, nd: nat, v: nat, total: nat, left: nat, t: nat, j: nat)
    requires base >= 2 && nd > 0 && total == left + nd * t + j && j > 0 && j == if left + j < nd then left + j else nd
    ensures left > 0 ==> InChunk(base, nd, v, total, left, t + 1, 0, 0, 1, if left < nd then left else nd)
    ensures left == 0 ==> t + 1 == (total + nd - 1) / nd
  {
    EmptySlice(base, v, nd * (t + 1));
    assert nd * (t + 1) == nd * t + nd;
    if left == 0 {
      ChunkCount(total, nd, t);
      ChunkCount(total, nd, t + 1);
    }
  }

  //----------------------------------------------------------------------------
  // Blocks, each twice as long as those of the level before

  /** The digits of a block at a level, and where block j starts. */
  function Unit(level: nat): nat { 2 * Pow2(level) }

  function From(j: nat, level: nat): nat { j * Unit(level) }

  /** The last block may be cut short. */
  function BlockLength(n: nat, j: nat, level: nat): nat
    requires From(j, level) <= n
  {
    if Unit(level) <= n - From(j, level) then Unit(level) else n - From(j, level)
  }

  function Block(ds: seq<Digit>, j: nat, level: nat): seq<Digit>
    requires From(j, level) <= |ds|
  {
    ds[From(j, level)..From(j, level) + BlockLength(|ds|, j, level)]
  }

  /** The digits of v that belong into block j. */
  function Piece(base: nat, nd: nat, v: nat, j: nat, level: nat): nat
    requires base >= 2
  {
    Slice(base, v, Chars(nd, level) * j, Chars(nd, level))
  }

  predicate BlockHolds(base: nat, nd: nat, v: nat, ds: seq<Digit>, level: nat, j: nat)
    requires base >= 2
  {
    From(j, level) < |ds| ==> Val(Block(ds, j, level)) == Piece(base, nd, v, j, level)
  }

  /** The blocks before block k hold their part of v. */
  predicate BlocksTo(base: nat, nd: nat, v: nat, ds: seq<Digit>, level: nat, k: nat)
    requires base >= 2
  {
    forall j :: 0 <= j < k ==> BlockHolds(base, nd, v, ds, level, j)
  }

  /** All blocks do: a block starts at its number or later. */
  predicate AllBlocks(base: nat, nd: nat, v: nat, ds: seq<Digit>, level: nat)
    requires base >= 2
  {
    BlocksTo(base, nd, v, ds, level, |ds|)
  }

  lemma UnitPositive(level: nat)
    ensures Unit(level) >= 2 && Unit(level + 1) == 2 * Unit(level)
  {}

  lemma FromUp(j: nat, level: nat)
    ensures From(j, level + 1) == From(2 * j, level) && From(2 * j + 1, level) == From(2 * j, level) + Unit(level)
    ensures From(j + 1, level) == From(j, level) + Unit(level) && j <= From(j, level)
  {
    UnitPositive(level);
    MulMonotone(1, Unit(level), j);
    assert j * (2 * Unit(level)) == (2 * j) * Unit(level);
  }

  /** The power of a level fits a block. */
  lemma {:induction false} LevelBelow(base: nat, nd: nat, p: DDigit, level: nat)
    requires Based(base, nd, p)
    ensures LevelPower(base, nd, level) < Pow(Unit(level))
    decreases level
  {
    hide LevelPower, Power;
    if level == 0 {
      LevelZero(base, nd);
      assert Pow(2) == 0x1_0000_0000 * Pow(1) && Pow(1) == 0x1_0000_0000 * Pow(0);
    } else {
      LevelBelow(base, nd, p, level - 1);
      LevelUp(base, nd, level - 1);
      UnitPositive(level - 1);
      hide Pow;
      var x := LevelPower(base, nd, level - 1);
      ProductBound(x, x, Unit(level - 1), Unit(level - 1));
    }
  }

  /** Two blocks make up one of the next level. */
  lemma PieceJoin(base: nat, nd: nat, v: nat, j: nat, level: nat)
    requires base >= 2
    ensures Piece(base, nd, v, j, level + 1) ==
            Piece(base, nd, v, 2 * j, level) + LevelPower(base, nd, level) * Piece(base, nd, v, 2 * j + 1, level)
    ensures Piece(base, nd, v, 2 * j, level) < LevelPower(base, nd, level)
  {
    var c := Chars(nd, level);
    LevelUp(base, nd, level);
    hide Slice, Chars, Power;
    assert (2 * c) * j == c * (2 * j) && c * (2 * j + 1) == c * (2 * j) + c;
    SliceJoin(base, v, c * (2 * j), c, c);
    SliceBound(base, v, c * (2 * j), c);
  }

  /** Past the end of the buffer nothing of v is left. */
  lemma PieceBeyond(base: nat, nd: nat, v: nat, j: nat, level: nat, n: nat)
    requires base >= 2 && v < Power(base, nd * n) && 2 * n <= From(j, level)
    ensures Piece(base, nd, v, j, level) == 0
  {
    var k := Chars(nd, level) * j;
    assert k == nd * (Pow2(level) * j) by { Associate(nd, Pow2(level), j); }
    assert From(j, level) == 2 * (Pow2(level) * j);
    MulMonotone(n, Pow2(level) * j, nd);
    hide Slice, Power;
    AboveBeyond(base, v, nd * n, k);
    SliceBeyond(base, v, k, Chars(nd, level));
  }

  /** One product and one sum. */
  method JoinBlocks(z: Span, power: Span, hi: Span, lo: Span)
    requires z.Valid() && power.Valid() && hi.Valid() && lo.Valid() && z.len == lo.len + hi.len && power.len <= lo.len
    requires z.Disjoint(power) && z.Disjoint(hi) && z.Disjoint(lo) && lo.Value() < power.Value() < Pow(lo.len)
    modifies z.buf
    ensures z.Value() == old(lo.Value() + power.Value() * hi.Value())
    ensures forall s: Span {:trigger s.Digits()} ::
      old(allocated(s)) && s.Valid() && s.Disjoint(z) ==> s.Digits() == old(s.Digits())
  {
    hide Val, Span.Digits, Pow, Shl;
    ghost var l, h, p := lo.Value(), hi.Value(), power.Value();
    SpanBound(hi);
    JoinBound(l, h, p, lo.len, hi.len);
    Mul(z, power, hi);
    var c := Add(z, z, lo);
    SpanBound(z);
    NoCarryLeft(z.Value(), l + p * h, c, z.len);
  }

  lemma JoinBound(l: nat, h: nat, p: nat, m: nat, n: nat)
    requires l < p < Pow(m) && h < Pow(n)
    ensures l + p * h < Pow(m + n)
  {
    hide Pow;
    PowAdd(m, n);
    MulMonotone(h + 1, Pow(n), p);
    MulMonotone(p, Pow(m), Pow(n));
  }

  /** What a step of the inner loop starts from: blocks of one level in u, and the power. */
  ghost predicate Joinable(base: nat, nd: nat, p: DDigit, v: nat, u: Span, w: Span, power: Span, level: nat)
    requires base >= 2
    reads u.buf, power.buf
  {
    && Based(base, nd, p) && u.Valid() && w.Valid() && u.len == w.len && u.len % 2 == 0 && u.Disjoint(w)
    && v < Power(base, nd * (u.len / 2)) && AllBlocks(base, nd, v, u.Digits(), level)
    && power.Valid() && power.buf != w.buf && power.len <= Unit(level) && power.Value() == LevelPower(base, nd, level)
  }

  /** The body of the inner loop. */
  method CombineBlock(base: nat, nd: nat, ghost p: DDigit, ghost v: nat, u: Span, w: Span, power: Span, unit: nat,
                      ghost level: nat, i: nat, ghost j: nat)
    requires base >= 2 && Joinable(base, nd, p, v, u, w, power, level) && unit == Unit(level)
             && i == From(j, level + 1) < u.len
    modifies w.buf
    ensures w.Sub(i, BlockLength(w.len, j, level + 1)).Value() == Piece(base, nd, v, j, level + 1)
    ensures forall s: Span {:trigger s.Digits()} ::
      old(allocated(s)) && s.Valid() && s.Disjoint(w.Sub(i, BlockLength(w.len, j, level + 1))) ==>
        s.Digits() == old(s.Digits())
  {
    hide Val, Span.Digits, Pow, Shl, Power, LevelPower, Piece, From, Unit, AllBlocks;
    var n := u.len;
    UnitPositive(level);
    LevelBelow(base, nd, p, level);
    HalfBlocks(base, nd, v, u, level, j);
    if 2 * unit <= n - i {
      JoinBlocks(w.Sub(i, 2 * unit), power, u.Sub(i + unit, unit), u.Sub(i, unit));
    } else if unit <= n - i {
      JoinBlocks(w.Sub(i, n - i), power, u.Sub(i + unit, n - (i + unit)), u.Sub(i, unit));
    } else {
      Copy(w.Sub(i, n - i), u.Sub(i, n - i));
    }
  }

  /** What goes into a block of the next level, in terms of the blocks there are. */
  lemma HalfBlocks(base: nat, nd: nat, v: nat, u: Span, level: nat, j: nat)
    requires base >= 2 && u.Valid() && u.len % 2 == 0 && v < Power(base, nd * (u.len / 2))
    requires From(j, level + 1) < u.len && AllBlocks(base, nd, v, u.Digits(), level)
    ensures var i, unit, n := From(j, level + 1), Unit(level), u.len;
            if unit <= n - i then
              var lo, hi := u.Sub(i, unit), u.Sub(i + unit, if 2 * unit <= n - i then unit else n - (i + unit));
              lo.Value() < LevelPower(base, nd, level) &&
              Piece(base, nd, v, j, level + 1) == lo.Value() + LevelPower(base, nd, level) * hi.Value()
            else
              Piece(base, nd, v, j, level + 1) == u.Sub(i, n - i).Value()
  {
    hide Val, Span.Digits, Power, LevelPower, Piece, From, Unit;
    var n, i, unit, ds := u.len, From(j, level + 1), Unit(level), u.Digits();
    UnitPositive(level);
    FromUp(j, level);
    FromUp(2 * j, level);
    FromUp(2 * j + 1, level);
    assert BlockHolds(base, nd, v, ds, level, 2 * j);
    SpanSub(u, i, BlockLength(n, 2 * j, level));
    PieceJoin(base, nd, v, j, level);
    if i + unit < n {
      assert BlockHolds(base, nd, v, ds, level, 2 * j + 1);
      SpanSub(u, i + unit, BlockLength(n, 2 * j + 1, level));
    } else {
      PieceBeyond(base, nd, v, 2 * j + 1, level, n / 2);
      Timeless(LevelPower(base, nd, level));
      EmptyValue(u.Sub(n, 0));
    }
  }

  lemma EmptyValue(s: Span)
    requires s.Valid() && s.len == 0
    ensures s.Value() == 0
  {
    assert s.Digits() == [];
  }

  lemma FirstFrom(level: nat)
    ensures From(0, level) == 0
  {}

  /** One more block, with those before it unchanged. */
  lemma BlockAdded(base: nat, nd: nat, v: nat, ds: seq<Digit>, es: seq<Digit>, level: nat, j: nat)
    requires base >= 2 && |ds| == |es| && From(j, level) < |ds| && ds[..From(j, level)] == es[..From(j, level)]
    requires BlocksTo(base, nd, v, ds, level, j) && Val(Block(es, j, level)) == Piece(base, nd, v, j, level)
    ensures BlocksTo(base, nd, v, es, level, j + 1)
  {
    hide Val, Piece;
    var f := From(j, level);
    forall k | 0 <= k < j ensures BlockHolds(base, nd, v, es, level, k) {
      assert BlockHolds(base, nd, v, ds, level, k);
      EarlierBlock(k, j, level);
      var g := From(k, level);
      SamePart(ds, es, f, g, g + BlockLength(|ds|, k, level));
    }
  }

  lemma EarlierBlock(k: nat, j: nat, level: nat)
    requires k < j
    ensures From(k, level) + Unit(level) <= From(j, level)
  {
    MulMonotone(k + 1, j, Unit(level));
  }

  lemma SamePart(ds: seq<Digit>, es: seq<Digit>, f: nat, g: nat, h: nat)
    requires g <= h <= f <= |ds| == |es| && ds[..f] == es[..f]
    ensures ds[g..h] == es[g..h]
  {
    assert ds[g..h] == ds[..f][g..h] && es[g..h] == es[..f][g..h];
  }

  /** A block starts at its number or later. */
  lemma BlocksDone(base: nat, nd: nat, v: nat, ds: seq<Digit>, level: nat, j: nat)
    requires base >= 2 && BlocksTo(base, nd, v, ds, level, j) && |ds| <= From(j, level)
    ensures AllBlocks(base, nd, v, ds, level)
  {
    hide Val, Piece;
    forall k | 0 <= k < |ds| ensures BlockHolds(base, nd, v, ds, level, k) {
      if k < j {
      } else {
        MulMonotone(j, k, Unit(level));
      }
    }
  }

  /** The inner loop: one level up. */
  method CombineLevel(base: nat, nd: nat, ghost p: DDigit, ghost v: nat, u: Span, w: Span, power: Span, unit: nat,
                      ghost level: nat)
    requires base >= 2 && Joinable(base, nd, p, v, u, w, power, level) && unit == Unit(level)
    modifies w.buf
    ensures AllBlocks(base, nd, v, w.Digits(), level + 1)
  {
    hide Val, Span.Digits, Pow, Power, LevelPower, Piece, From, Unit, BlockHolds, BlocksTo, AllBlocks;
    ghost var j := 0;
    var i := 0;
    UnitPositive(level);
    FirstFrom(level + 1);
    NoBlocks(base, nd, v, w.Digits(), level + 1);
    while i < u.len
      invariant i == From(j, level + 1) && BlocksTo(base, nd, v, w.Digits(), level + 1, j)
      invariant u.Digits() == old(u.Digits()) && power.Digits() == old(power.Digits())
    {
      ghost var ds := w.Digits();
      SpanSub(w, 0, i);
      CombineBlock(base, nd, p, v, u, w, power, unit, level, i, j);
      SpanSub(w, 0, i);
      SpanSub(w, i, BlockLength(w.len, j, level + 1));
      BlockAdded(base, nd, v, ds, w.Digits(), level + 1, j);
      FromUp(j, level + 1);
      i := i + 2 * unit;
      j := j + 1;
    }
    BlocksDone(base, nd, v, w.Digits(), level + 1, j);
  }

  lemma NoBlocks(base: nat, nd: nat, v: nat, ds: seq<Digit>, level: nat)
    requires base >= 2
    ensures BlocksTo(base, nd, v, ds, level, 0)
  {}

  /** The chunks are the blocks of the lowest level. */
  lemma FirstBlocks(base: nat, nd: nat, v: nat, u: Span)
    requires base >= 2 && u.Valid() && u.len % 2 == 0 && ChunksTo(base, nd, v, u, u.len)
    ensures AllBlocks(base, nd, v, u.Digits(), 0)
  {
    hide Val, Slice, Span.Digits;
    forall j | 0 <= j < u.len ensures BlockHolds(base, nd, v, u.Digits(), 0, j) {
      assert Unit(0) == 2 && From(j, 0) == 2 * j && nd * 1 == nd;
      if 2 * j < u.len {
        assert (2 * j) % 2 == 0 && (2 * j) / 2 == j;
        SpanSub(u, 2 * j, 2);
      }
    }
  }

  /** A block that holds everything. */
  lemma LastBlock(base: nat, nd: nat, v: nat, ds: seq<Digit>, level: nat)
    requires base >= 2 && AllBlocks(base, nd, v, ds, level) && 0 < |ds| <= Unit(level) && |ds| % 2 == 0
             && v < Power(base, nd * (|ds| / 2))
    ensures Val(ds) == v
  {
    hide Val, Slice, Power;
    FirstFrom(level);
    assert BlockHolds(base, nd, v, ds, level, 0);
    assert Block(ds, 0, level) == ds;
    MulMonotone(|ds| / 2, Pow2(level), nd);
    assert Chars(nd, level) * 0 == 0;
    PowerGrows(base, nd * (|ds| / 2), Chars(nd, level));
    SliceWhole(base, v, Chars(nd, level));
  }

  lemma SliceWhole(base: nat, v: nat, m: nat)
    requires base >= 2 && v < Power(base, m)
    ensures Slice(base, v, 0, m) == v
  {
    assert Power(base, 0) == 1 && v / 1 == v;
    DivModUnique(v, Power(base, m), 0, v);
  }

  /** The digits the chunks take. */
  lemma {:induction false} ChunkRoom(base: nat, nd: nat, p: DDigit, count: nat)
    requires Based(base, nd, p)
    ensures Power(base, nd * count) <= Pow(2 * count)
    decreases count
  {
    hide Power;
    if count == 0 {
      assert nd * 0 == 0;
      EmptySlice(base, 0, 0);
    } else {
      ChunkRoom(base, nd, p, count - 1);
      assert nd * count == nd * (count - 1) + nd;
      PowerAdd(base, nd * (count - 1), nd);
      MulMonotone(Power(base, nd * (count - 1)), Pow(2 * (count - 1)), p);
      MulMonotone(p, 0x1_0000_0000_0000_0000, Pow(2 * (count - 1)));
      assert Pow(2 * count) == 0x1_0000_0000 * Pow(2 * count - 1)
             && Pow(2 * count - 1) == 0x1_0000_0000 * Pow(2 * (count - 1));
    }
  }

  /** `roomof`. */
  lemma RoomOf(total: nat, nd: nat)
    requires nd > 0
    ensures total <= nd * ((total + nd - 1) / nd) && (total > 0 ==> 0 < (total + nd - 1) / nd <= total)
  {
    MulMonotone(1, nd, total);
    ChunkCount(total, nd, total);
    ChunkCount(total, nd, (total + nd - 1) / nd);
    ChunkCount(total, nd, 0);
  }

  /** `str2big_karatsuba`. */
  method ReadKaratsuba(chars: seq<int>, base: nat, nd: nat, p: DDigit, n: nat) returns (ds: seq<Digit>)
    requires Based(base, nd, p) && nd > 0 && CharsInBase(base, chars) && Clean(chars) != [] && |chars| <= LONG_MAX
    requires n == 2 * ((|Clean(chars)| + nd - 1) / nd)
    ensures Val(ds) == Read(base, Clean(chars)) && (ds != [] ==> ds[|ds| - 1] != 0)
  {
    hide Val, Power, Pow, LevelPower, Read, Clean, AllBlocks, Unit, Span.Digits, ChunksTo;
    ghost var v, total := Read(base, Clean(chars)), |Clean(chars)|;
    CleanInBase(base, chars);
    ReadBound(base, Clean(chars));
    RoomOf(total, nd);
    CleanShorter(chars);
    PowerGrows(base, total, nd * (n / 2));
    var a := new Digit[2 * n];
    var u, w := Span(a, 0, n), Span(a, n, n);
    var level := 0;
    var power := GetPower(base, nd, p, level);
    ReadChunks(chars, base, nd, p, u);
    FirstBlocks(base, nd, v, u);
    var unit := 2;
    FirstUnit();
    while unit < n
      invariant unit == Unit(level) && u.Valid() && w.Valid() && u.buf == w.buf == a && u.len == w.len == n
                && u.Disjoint(w)
      invariant power.Valid() && power.buf != a && Full(power) && power.Value() == LevelPower(base, nd, level)
      invariant AllBlocks(base, nd, v, u.Digits(), level)
    {
      LevelBelow(base, nd, p, level);
      ShortFull(power, unit);
      CombineLevel(base, nd, p, v, u, w, power, unit, level);
      UnitPositive(level);
      UnitLevel(level, n);
      level := level + 1;
      power := GetPower(base, nd, p, level);
      u, w := w, u;
      unit := unit * 2;
    }
    LastBlock(base, nd, v, u.Digits(), level);
    var t := Shortened(u);
    ds := a[t.off..t.off + t.len];
    SpanIs(t);
  }

  lemma UnitLevel(level: nat, n: nat)
    requires Unit(level) < n <= 2 * LONG_MAX
    ensures level + 1 < 64
  {
    SmallLevel(level + 1, n);
  }

  lemma {:induction false} CleanShorter(chars: seq<int>)
    ensures |Clean(chars)| <= |chars|
    decreases |chars|
  {
    if chars != [] { CleanShorter(chars[..|chars| - 1]); }
  }

  lemma FirstUnit()
    ensures Unit(0) == 2
  {}

  lemma SpanIs(t: Span)
    requires t.Valid()
    ensures t.Digits() == t.buf[t.off..t.off + t.len]
  {}

  /** The end of `rb_cstr_parse_inum`: which reader is used does not matter. */
  method ReadText(chars: seq<int>, base: nat) returns (ds: seq<Digit>)
    requires 2 <= base <= 36 && CharsInBase(base, chars) && Clean(chars) != [] && |chars| <= LONG_MAX
    ensures Val(ds) == Read(base, Clean(chars))
  {
    hide Val, Power, Pow, Read, Clean;
    var p, nd := MaxPow(base);
    var total := CountDigits(chars);
    var n := 2 * ((total + nd - 1) / nd);
    if n < KARATSUBA_MUL_DIGITS {
      RoomOf(total, nd);
      PowerGrows(base, total, nd * (n / 2));
      ChunkRoom(base, nd, p, n / 2);
      ds := ReadNormal(chars, base, n);
    } else {
      ds := ReadKaratsuba(chars, base, nd, p, n);
    }
  }

  lemma {:induction false} NothingSkipped(chars: seq<int>)
    requires forall i :: 0 <= i < |chars| ==> chars[i] >= 0
    ensures Clean(chars) == chars
    decreases |chars|
  {
    if chars != [] { NothingSkipped(chars[..|chars| - 1]); }
  }

  /** What is written reads back as the same number. */
  method WriteThenRead(ds: seq<Digit>, base: nat) returns (es: seq<Digit>)
    requires 2 <= base <= 36 && Val(ds) < Pow(LONG_MAX / 32 - 1)
    ensures Val(es) == Val(ds)
  {
    hide Val, Pow, Rep, Read, Clean;
    var t := ToText(false, ds, base);
    var chars: seq<int> := t.digits;
    ReadRep(base, Val(ds));
    if Val(ds) == 0 { ReadZero(base); }
    RepSome(base, Val(ds));
    NothingSkipped(chars);
    es := ReadText(chars, base);
  }

  lemma ReadZero(base: nat)
    ensures Read(base, [0]) == 0
  {
    assert [0][..0] == [];
  }

  lemma RepSome(base: nat, x: nat)
    requires base >= 2
    ensures x > 0 ==> Rep(base, x) != []
  {}
}

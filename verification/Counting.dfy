/**
 * How many tuples there are, and the size functions of array.c.
 */
module Counting {
  import opened Tuples
  import opened Bits

  /** from * (from - 1) * ..., k factors. */
  function Falling(from: int, k: nat): int
    decreases k
  {
    if k == 0 then 1 else from * Falling(from - 1, k - 1)
  }

  /** Pascal's triangle. */
  function Choose(n: nat, k: nat): nat
  {
    if k == 0 then 1 else if n == 0 then 0 else Choose(n - 1, k - 1) + Choose(n - 1, k)
  }

  //----------------------------------------------------------------------------
  // Permutations

  /** The indices from i on that p does not use. */
  function Unused(n: nat, p: Tuple, i: nat): nat
    decreases n - i
  {
    if i >= n then 0 else (if i in p then 0 else 1) + Unused(n, p, i + 1)
  }

  lemma {:induction false} UnusedSnoc(n: nat, p: Tuple, x: nat, i: nat)
    requires x < n && x !in p
    ensures Unused(n, p + [x], i) == Unused(n, p, i) - if i <= x then 1 else 0
    decreases n - i
  {
    if i < n { UnusedSnoc(n, p, x, i + 1); }
  }

  lemma {:induction false} UnusedAll(n: nat, p: Tuple, i: nat)
    requires i <= n && (forall x :: x in p ==> x < i)
    ensures Unused(n, p, i) == n - i
    decreases n - i
  {
    if i < n { UnusedAll(n, p, i + 1); }
  }

  /** Of n indices, a permutation of |p| of them leaves n - |p|. */
  lemma {:induction false} UnusedCount(n: nat, p: Tuple)
    requires Below(n, p) && Injective(p)
    ensures |p| <= n && Unused(n, p, 0) == n - |p|
    decreases |p|
  {
    if p == [] {
      UnusedAll(n, p, 0);
    } else {
      var q, x := p[..|p| - 1], p[|p| - 1];
      assert p == q + [x];
      assert x !in q by {
        assert forall j :: 0 <= j < |q| ==> q[j] == p[j] && p[j] != p[|p| - 1];
      }
      UnusedCount(n, q);
      UnusedSnoc(n, q, x, 0);
    }
  }

  lemma {:induction false} CountPermutationsFrom(n: nat, r: nat, p: Tuple, i: nat)
    requires |p| < r && Below(n, p) && Injective(p)
    ensures |From(Permutations, n, r, p, i)| == Unused(n, p, i) * Falling(n - |p| - 1, r - |p| - 1)
    decreases r - |p|, n - i
  {
    hide Falling, Ext;
    if i < n {
      CountPermutationsFrom(n, r, p, i + 1);
      if i !in p {
        assert Injective(p + [i]);
        CountPermutations(n, r, p + [i]);
        OneMore(Unused(n, p, i + 1), Falling(n - |p| - 1, r - |p| - 1));
      }
    }
  }

  lemma OneMore(u: int, f: int)
    ensures (1 + u) * f == f + u * f
  {}

  lemma {:induction false} CountPermutations(n: nat, r: nat, p: Tuple)
    requires |p| <= r && Below(n, p) && Injective(p)
    ensures |Ext(Permutations, n, r, p)| == Falling(n - |p|, r - |p|)
    decreases r - |p|, n + 1
  {
    if |p| < r {
      CountPermutationsFrom(n, r, p, 0);
      UnusedCount(n, p);
    }
  }

  //----------------------------------------------------------------------------
  // Combinations

  /** The smallest index that may follow p. */
  function Least(kind: Kind, p: Tuple): nat
  {
    if p == [] || kind == Permutations || kind == RepeatedPermutations then 0
    else p[|p| - 1] + if kind == Combinations then 1 else 0
  }

  /** What is below it is passed over. */
  lemma {:induction false} SkipLow(kind: Kind, n: nat, r: nat, p: Tuple, i: nat)
    requires |p| < r && i <= Least(kind, p)
    ensures From(kind, n, r, p, i) == From(kind, n, r, p, Least(kind, p))
    decreases Least(kind, p) - i
  {
    if i < Least(kind, p) {
      if i < n {
        assert !Fits(kind, p, i);
        SkipLow(kind, n, r, p, i + 1);
      }
    }
  }

  lemma {:induction false} CountCombinations(n: nat, r: nat, p: Tuple, i: nat)
    requires |p| < r && Least(Combinations, p) <= i
    ensures |From(Combinations, n, r, p, i)| == if i <= n then Choose(n - i, r - |p|) else 0
    decreases n - i
  {
    if i < n {
      CountCombinations(n, r, p, i + 1);
      if |p| + 1 < r {
        SkipLow(Combinations, n, r, p + [i], 0);
        CountCombinations(n, r, p + [i], i + 1);
      } else {
        assert Ext(Combinations, n, r, p + [i]) == [p + [i]];
      }
    }
  }

  //----------------------------------------------------------------------------
  // With repetition

  lemma {:induction false} CountRepeatedFrom(n: nat, r: nat, p: Tuple, i: nat)
    requires |p| < r && i <= n
    ensures |From(RepeatedPermutations, n, r, p, i)| == (n - i) * Power(n, r - |p| - 1)
    decreases r - |p|, n - i
  {
    if i < n {
      CountRepeatedFrom(n, r, p, i + 1);
      CountRepeated(n, r, p + [i]);
    }
  }

  lemma {:induction false} CountRepeated(n: nat, r: nat, p: Tuple)
    requires |p| <= r
    ensures |Ext(RepeatedPermutations, n, r, p)| == Power(n, r - |p|)
    decreases r - |p|, n + 1
  {
    if |p| < r { CountRepeatedFrom(n, r, p, 0); }
  }

  /** Combinations with repetition of k out of n. */
  function Multichoose(n: nat, k: nat): nat { if k == 0 then 1 else if n == 0 then 0 else Choose(n + k - 1, k) }

  lemma {:induction false} ChooseTooMany(n: nat, k: nat)
    requires n < k
    ensures Choose(n, k) == 0
    decreases n
  {
    if n > 0 {
      ChooseTooMany(n - 1, k - 1);
      ChooseTooMany(n - 1, k);
    }
  }

  lemma MultichooseStep(n: nat, k: nat)
    requires n > 0 && k > 0
    ensures Multichoose(n, k) == Multichoose(n, k - 1) + Multichoose(n - 1, k)
  {
    if n == 1 { ChooseTooMany(k - 1, k); }
  }

  lemma {:induction false} CountMultisets(n: nat, r: nat, p: Tuple, i: nat)
    requires |p| < r && Least(RepeatedCombinations, p) <= i
    ensures |From(RepeatedCombinations, n, r, p, i)| == if i <= n then Multichoose(n - i, r - |p|) else 0
    decreases r - |p|, n - i
  {
    if i < n {
      CountMultisets(n, r, p, i + 1);
      MultichooseStep(n - i, r - |p|);
      if |p| + 1 < r {
        SkipLow(RepeatedCombinations, n, r, p + [i], 0);
        CountMultisets(n, r, p + [i], i);
      } else {
        assert Ext(RepeatedCombinations, n, r, p + [i]) == [p + [i]];
      }
    }
  }

  //----------------------------------------------------------------------------
  // The size functions

  /** `descending_factorial`. */
  method DescendingFactorial(from: int, howMany: int) returns (cnt: int)
    ensures cnt == if howMany >= 0 then Falling(from, howMany) else 0
  {
    cnt := if howMany >= 0 then 1 else 0;
    var f, h := from, howMany;
    while h > 0
      invariant howMany >= 0 ==> 0 <= h && cnt * Falling(f, h) == Falling(from, howMany)
      invariant howMany < 0 ==> h == howMany && cnt == 0
      decreases h
    {
      FallingStep(cnt, f, h);
      cnt := cnt * f;
      f := f - 1;
      h := h - 1;
    }
  }

  lemma FallingStep(c: int, f: int, h: nat)
    requires h > 0
    ensures c * Falling(f, h) == c * f * Falling(f - 1, h - 1)
  {}

  /** The last factor instead of the first. */
  lemma {:induction false} FallingLast(n: int, k: nat)
    ensures Falling(n, k + 1) == Falling(n, k) * (n - k)
    decreases k
  {
    if k > 0 {
      FallingLast(n - 1, k - 1);
      Associate(n, Falling(n - 1, k - 1), n - k);
    }
  }

  /** The divisor divides: n falling k is n choose k times k falling k. */
  lemma {:induction false} FallingChoose(n: nat, k: nat)
    ensures Falling(n, k) == Choose(n, k) * Falling(k, k)
    decreases n, k
  {
    if k == 0 {
    } else if n == 0 {
    } else {
      // n falling k = (n - k) * (n-1 falling k-1) + k * (n-1 falling k-1)
      FallingChoose(n - 1, k - 1);
      FallingChoose(n - 1, k);
      FallingLast(n - 1, k - 1);
      ChooseAlgebra(n, k, Falling(n - 1, k - 1), Choose(n - 1, k - 1), Choose(n - 1, k), Falling(k - 1, k - 1));
    }
  }

  lemma ChooseAlgebra(n: int, k: int, f: int, a: int, b: int, g: int)
    requires f == a * g && f * (n - k) == b * (k * g)
    ensures n * f == (a + b) * (k * g)
  {
    assert (a + b) * (k * g) == a * (k * g) + b * (k * g);
    assert a * (k * g) == k * (a * g);
    assert n * f == f * (n - k) + k * f;
  }

  lemma {:induction false} FallingPositive(k: nat)
    ensures Falling(k, k) > 0
    decreases k
  {
    if k > 0 { FallingPositive(k - 1); }
  }

  lemma {:induction false} ChooseSymmetric(n: nat, k: nat)
    requires k <= n
    ensures Choose(n, k) == Choose(n, n - k)
    decreases n
  {
    if k == n {
      ChooseAllOf(n);
    } else if k == 0 {
      ChooseAllOf(n);
    } else {
      ChooseSymmetric(n - 1, k - 1);
      ChooseSymmetric(n - 1, k);
    }
  }

  lemma {:induction false} ChooseAllOf(n: nat)
    ensures Choose(n, n) == 1
    decreases n
  {
    if n > 0 {
      ChooseAllOf(n - 1);
      ChooseTooMany(n - 1, n);
    }
  }

  /** `binomial_coefficient`. */
  method BinomialCoefficient(comb: int, size: int) returns (b: int)
    ensures b == if 0 <= comb <= size then Choose(size, comb) else 0
  {
    var c := if comb > size - comb then size - comb else comb;
    if c < 0 { return 0; }
    var r := DescendingFactorial(size, c);
    var v := DescendingFactorial(c, c);
    FallingChoose(size, c);
    FallingPositive(c);
    DivModUnique(r, v, Choose(size, c), 0);
    ChooseSymmetric(size, c);
    b := r / v;
  }

  /** `rb_ary_permutation_size`: the number of permutations. */
  method PermutationSize(n: nat, k: int) returns (size: int)
    ensures size == |All(Permutations, n, k)|
  {
    size := DescendingFactorial(n, k);
    if k >= 0 { CountPermutations(n, k, []); }
  }

  /** `rb_ary_combination_size`. */
  method CombinationSize(n: nat, k: int) returns (size: int)
    ensures size == |All(Combinations, n, k)|
  {
    size := BinomialCoefficient(k, n);
    if k > 0 {
      CountCombinations(n, k, [], 0);
      if k > n { ChooseTooMany(n, k); }
    }
  }

  /** `rb_ary_repeated_permutation_size`. */
  method RepeatedPermutationSize(n: nat, k: int) returns (size: int)
    ensures size == |All(RepeatedPermutations, n, k)|
  {
    if k < 0 { return 0; }
    size := Power(n, k);
    CountRepeated(n, k, []);
  }

  /** `rb_ary_repeated_combination_size`. */
  method RepeatedCombinationSize(n: nat, k: int) returns (size: int)
    ensures size == |All(RepeatedCombinations, n, k)|
  {
    if k == 0 { return 1; }
    size := BinomialCoefficient(k, n + k - 1);
    if k > 0 { CountMultisets(n, k, [], 0); }
  }
}

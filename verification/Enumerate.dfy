/**
 * The iterative enumerators of array.c.  Yielding a tuple of indices is appending it to the
 * result; what is yielded to the block are the values at those indices.
 */
module Enumerate {
  import opened Tuples
  import opened Counting

  //----------------------------------------------------------------------------
  // What is still to come

  /** The tuples yet to be yielded when p is fixed and i is the next candidate behind it. */
  ghost function Remaining(kind: Kind, n: nat, r: nat, p: Tuple, i: nat): seq<Tuple>
    requires |p| < r
    decreases |p|
  {
    From(kind, n, r, p, i) + if p == [] then [] else Remaining(kind, n, r, p[..|p| - 1], p[|p| - 1] + 1)
  }

  /** The candidates yet to be looked at, m places before the end. */
  ghost function Work(n: nat, m: nat, i: nat): (w: nat)
    ensures w >= 1
    decreases m, n - i
  {
    if i >= n then 1 else 1 + (if m > 1 then Work(n, m - 1, 0) else 0) + Work(n, m, i + 1)
  }

  ghost function Ahead(n: nat, r: nat, p: Tuple, i: nat): nat
    requires |p| < r
    decreases |p|
  {
    Work(n, r - |p|, i) + if p == [] then 0 else Ahead(n, r, p[..|p| - 1], p[|p| - 1] + 1)
  }

  lemma {:induction false} WorkLater(n: nat, m: nat, i: nat, u: nat)
    requires i <= u
    ensures Work(n, m, u) <= Work(n, m, i)
    decreases u - i
  {
    if i < u && i < n { WorkLater(n, m, i + 1, u); }
  }

  /** The next candidate is taken. */
  lemma Push(kind: Kind, n: nat, r: nat, p: Tuple, u: nat)
    requires |p| + 1 < r && u < n && Fits(kind, p, u)
    ensures Remaining(kind, n, r, p, u) == Remaining(kind, n, r, p + [u], 0)
    ensures Ahead(n, r, p + [u], 0) < Ahead(n, r, p, u)
  {
    PushRemaining(kind, n, r, p, u);
    PushAhead(n, r, p, u);
  }

  lemma FromStep(kind: Kind, n: nat, r: nat, p: Tuple, u: nat)
    requires |p| < r && u < n && Fits(kind, p, u)
    ensures From(kind, n, r, p, u) == Ext(kind, n, r, p + [u]) + From(kind, n, r, p, u + 1)
    ensures |p| + 1 < r ==> Ext(kind, n, r, p + [u]) == From(kind, n, r, p + [u], 0)
  {}

  lemma RemainingSnoc(kind: Kind, n: nat, r: nat, p: Tuple, u: nat, i: nat)
    requires |p| + 1 < r
    ensures Remaining(kind, n, r, p + [u], i) == From(kind, n, r, p + [u], i) + Remaining(kind, n, r, p, u + 1)
  {
    hide From, Ext;
    assert (p + [u])[..|p|] == p;
  }

  lemma PushRemaining(kind: Kind, n: nat, r: nat, p: Tuple, u: nat)
    requires |p| + 1 < r && u < n && Fits(kind, p, u)
    ensures Remaining(kind, n, r, p, u) == Remaining(kind, n, r, p + [u], 0)
  {
    hide From, Ext;
    FromStep(kind, n, r, p, u);
    RemainingSnoc(kind, n, r, p, u, 0);
  }

  lemma PushAhead(n: nat, r: nat, p: Tuple, u: nat)
    requires |p| + 1 < r && u < n
    ensures Ahead(n, r, p + [u], 0) < Ahead(n, r, p, u)
  {
    var q := p + [u];
    assert Work(n, r - |p|, u) == 1 + Work(n, r - |p| - 1, 0) + Work(n, r - |p|, u + 1);
    hide Work;
    assert q[..|q| - 1] == p && q[|q| - 1] == u;
  }

  /** The candidates are exhausted. */
  lemma Pop(kind: Kind, n: nat, r: nat, p: Tuple, i: nat)
    requires |p| < r && p != [] && From(kind, n, r, p, i) == []
    ensures Remaining(kind, n, r, p, i) == Remaining(kind, n, r, p[..|p| - 1], p[|p| - 1] + 1)
    ensures Ahead(n, r, p[..|p| - 1], p[|p| - 1] + 1) < Ahead(n, r, p, i)
  {
    hide From, Work;
  }

  /** The next candidate is dealt with. */
  lemma Advance(kind: Kind, n: nat, r: nat, p: Tuple, u: nat)
    requires |p| < r && u < n && Fits(kind, p, u)
    ensures Remaining(kind, n, r, p, u) == Ext(kind, n, r, p + [u]) + Remaining(kind, n, r, p, u + 1)
    ensures Ahead(n, r, p, u + 1) < Ahead(n, r, p, u)
  {
    hide From, Ext;
    FromStep(kind, n, r, p, u);
  }

  //----------------------------------------------------------------------------
  // Permutations

  /** `memchr` for the next index that is not used. */
  method NextUnused(used: array<bool>, i: nat) returns (u: nat)
    requires i <= used.Length
    ensures i <= u <= used.Length && (u < used.Length ==> !used[u]) && forall j :: i <= j < u ==> used[j]
  {
    u := i;
    while u < used.Length && used[u]
      invariant i <= u <= used.Length && forall j :: i <= j < u ==> used[j]
    {
      u := u + 1;
    }
  }

  lemma SkipUsed(n: nat, r: nat, p: Tuple, i: nat, u: nat)
    requires |p| < r && i <= u <= n && forall j :: i <= j < u ==> j in p
    ensures Remaining(Permutations, n, r, p, i) == Remaining(Permutations, n, r, p, u)
    ensures From(Permutations, n, r, p, i) == From(Permutations, n, r, p, u)
    ensures Ahead(n, r, p, u) <= Ahead(n, r, p, i)
  {
    SkipUsedFrom(n, r, p, i, u);
    WorkLater(n, r - |p|, i, u);
    hide From, Work;
  }

  lemma {:induction false} SkipUsedFrom(n: nat, r: nat, p: Tuple, i: nat, u: nat)
    requires |p| < r && i <= u <= n && forall j :: i <= j < u ==> j in p
    ensures From(Permutations, n, r, p, i) == From(Permutations, n, r, p, u)
    decreases u - i
  {
    if i < u { SkipUsedFrom(n, r, p, i + 1, u); }
  }

  /** used marks the elements of the first k places of p. */
  ghost predicate Marks(used: array<bool>, p: array<nat>, k: nat)
    requires k <= p.Length
    reads used, p
  {
    && (forall j :: 0 <= j < used.Length ==> (used[j] <==> j in p[..k]))
    && (forall j :: 0 <= j < k ==> p[j] < used.Length)
    && Injective(p[..k])
  }

  /** The last place: every index that is left. */
  method YieldLast(n: nat, r: nat, p: array<nat>, used: array<bool>, out: seq<Tuple>) returns (out': seq<Tuple>)
    requires p.Length == r && 1 <= r && used.Length == n && Marks(used, p, r - 1)
    modifies p
    ensures Marks(used, p, r - 1) && p[..r - 1] == old(p[..r - 1])
    ensures out' == out + Ext(Permutations, n, r, p[..r - 1])
  {
    ghost var q := p[..r - 1];
    out' := out;
    for i := 0 to n
      invariant Marks(used, p, r - 1) && p[..r - 1] == q
      invariant out' + From(Permutations, n, r, q, i) == out + Ext(Permutations, n, r, q)
    {
      if !used[i] {
        p[r - 1] := i;
        assert p[..r - 1] == q && p[..] == q + [i];
        assert Ext(Permutations, n, r, q + [i]) == [q + [i]];
        out' := out' + [p[..]];
      }
    }
  }

  /** `permute0`. */
  method Permute0(n: nat, r: nat, p: array<nat>, used: array<bool>) returns (out: seq<Tuple>)
    requires 2 <= r == p.Length && used.Length == n && forall j :: 0 <= j < n ==> !used[j]
    modifies p, used
    ensures out == All(Permutations, n, r)
  {
    hide From, Ext, Remaining, Ahead, Work, Marks;
    var i: nat, index: nat := 0, 0;
    out := [];
    Start(Permutations, n, r);
    assert p[..0] == [] && Marks(used, p, 0) by { NoMarks(used, p); }
    while true
      invariant index < r - 1 && i <= n && Marks(used, p, index)
      invariant out + Remaining(Permutations, n, r, p[..index], i) == All(Permutations, n, r)
      decreases Ahead(n, r, p[..index], i)
    {
      var u := NextUnused(used, i);
      ghost var q := p[..index];
      MarksUsed(used, p, index);
      SkipUsed(n, r, q, i, u);
      if u == n {
        Nothing(Permutations, n, r, q, u);
        if index == 0 { break; }
        Pop(Permutations, n, r, q, u);
        index := index - 1;
        i := p[index];
        assert q[..|q| - 1] == p[..index];
        Unmark(used, p, index);
        i := i + 1;
      } else {
        Mark(used, p, index, u);
        index := index + 1;
        if index < r - 1 {
          Push(Permutations, n, r, q, u);
          i := 0;
        } else {
          Advance(Permutations, n, r, q, u);
          out := YieldLast(n, r, p, used, out);
          index := index - 1;
          assert p[..index + 1][..index] == p[..index] && p[..index + 1][index] == p[index];
          i := p[index];
          Unmark(used, p, index);
          i := i + 1;
        }
      }
    }
  }

  lemma Start(kind: Kind, n: nat, r: nat)
    requires r > 0
    ensures Remaining(kind, n, r, [], 0) == All(kind, n, r)
  {}

  lemma Nothing(kind: Kind, n: nat, r: nat, p: Tuple, i: nat)
    requires |p| < r && i >= n
    ensures From(kind, n, r, p, i) == [] && (p == [] ==> Remaining(kind, n, r, p, i) == [])
  {}

  lemma NoMarks(used: array<bool>, p: array<nat>)
    requires forall j :: 0 <= j < used.Length ==> !used[j]
    ensures Marks(used, p, 0)
  {}

  lemma MarksUsed(used: array<bool>, p: array<nat>, k: nat)
    requires k <= p.Length && Marks(used, p, k)
    ensures forall j :: 0 <= j < used.Length ==> (used[j] <==> j in p[..k])
    ensures forall j :: 0 <= j < k ==> p[j] < used.Length
  {}

  method Mark(used: array<bool>, p: array<nat>, index: nat, u: nat)
    requires index < p.Length && Marks(used, p, index) && u < used.Length && !used[u]
    modifies used, p
    ensures Marks(used, p, index + 1) && p[..index + 1] == old(p[..index]) + [u]
  {
    ghost var q := p[..index];
    p[index] := u;
    used[u] := true;
    assert p[..index + 1] == q + [u];
  }

  method Unmark(used: array<bool>, p: array<nat>, index: nat)
    requires index < p.Length && Marks(used, p, index + 1)
    modifies used
    ensures Marks(used, p, index)
  {
    assert p[..index + 1] == p[..index] + [p[index]];
    ghost var q := p[..index + 1];
    assert p[index] !in p[..index] by { assert forall j :: 0 <= j < index ==> q[j] == p[j] && q[j] != q[index]; }
    assert Injective(p[..index]) by { assert forall j :: 0 <= j < index ==> p[..index][j] == q[j]; }
    used[p[index]] := false;
  }

  /** `rb_ary_permutation`: the index tuples yielded. */
  method Permutation(n: nat, r: int) returns (out: seq<Tuple>)
    ensures out == All(Permutations, n, r)
  {
    if r < 0 || n < r {
      out := [];
      if r > 0 { TooLong(n, r); }
    } else if r == 0 {
      out := [[]];
    } else if r == 1 {
      out := Singles(Permutations, n);
    } else {
      var p, used := new nat[r], new bool[n](_ => false);
      out := Permute0(n, r, p, used);
    }
  }

  lemma TooLong(n: nat, r: nat)
    requires n < r
    ensures All(Permutations, n, r) == [] && All(Combinations, n, r) == []
  {
    CountPermutations(n, r, []);
    FallingZero(n, r);
    CountCombinations(n, r, [], 0);
    ChooseTooMany(n, r);
  }

  lemma {:induction false} FallingZero(n: nat, r: nat)
    requires n < r
    ensures Falling(n, r) == 0
    decreases n
  {
    if n > 0 { FallingZero(n - 1, r - 1); }
  }

  /** The easy case of one index. */
  method Singles(kind: Kind, n: nat) returns (out: seq<Tuple>)
    ensures out == All(kind, n, 1)
  {
    out := [];
    for i := 0 to n
      invariant out + From(kind, n, 1, [], i) == All(kind, n, 1)
    {
      assert [] + [i] == [i] && Ext(kind, n, 1, [i]) == [[i]];
      assert Fits(kind, [], i);
      out := out + [[i]];
    }
  }

  //----------------------------------------------------------------------------
  // Combinations

  /** i, i + 1, ..., m of them. */
  ghost function Upward(i: nat, m: nat): Tuple
    decreases m
  {
    if m == 0 then [] else [i] + Upward(i + 1, m - 1)
  }

  /** The next combination goes straight up from i. */
  lemma {:induction false} NextCombination(n: nat, r: nat, p: Tuple, i: nat)
    requires |p| < r && Least(Combinations, p) <= i && i + (r - |p|) <= n
    ensures var t := p + Upward(i, r - |p|);
            && |t| == r && t[..|p|] == p
            && Remaining(Combinations, n, r, p, i) == [t] + Remaining(Combinations, n, r, t[..r - 1], t[r - 1] + 1)
            && Ahead(n, r, t[..r - 1], t[r - 1] + 1) < Ahead(n, r, p, i)
    decreases r - |p|
  {
    hide From, Ext, Work, Remaining, Ahead, Upward, Least;
    var m := r - |p|;
    var t, q := p + Upward(i, m), p + [i];
    UpwardStep(i, m);
    LeastCombination(p, i);
    if m == 1 {
      UpwardNone(i + 1);
      assert t == q && t[..r - 1] == p;
      Advance(Combinations, n, r, p, i);
      Last(Combinations, n, r, q);
    } else {
      Push(Combinations, n, r, p, i);
      SkipLow(Combinations, n, r, q, 0);
      SkipRemaining(Combinations, n, r, q, 0, i + 1);
      NextCombination(n, r, q, i + 1);
      assert t == q + Upward(i + 1, m - 1);
    }
  }

  lemma UpwardStep(i: nat, m: nat)
    requires m > 0
    ensures Upward(i, m) == [i] + Upward(i + 1, m - 1)
  {}

  lemma UpwardNone(i: nat)
    ensures Upward(i, 0) == []
  {}

  lemma LeastCombination(p: Tuple, i: nat)
    ensures Least(Combinations, p + [i]) == i + 1
    ensures Least(Combinations, p) <= i ==> Fits(Combinations, p, i)
  {}

  lemma Last(kind: Kind, n: nat, r: nat, t: Tuple)
    requires |t| == r
    ensures Ext(kind, n, r, t) == [t]
  {}

  lemma SkipRemaining(kind: Kind, n: nat, r: nat, p: Tuple, i: nat, u: nat)
    requires |p| < r && i <= u && From(kind, n, r, p, i) == From(kind, n, r, p, u)
    ensures Remaining(kind, n, r, p, i) == Remaining(kind, n, r, p, u) && Ahead(n, r, p, u) <= Ahead(n, r, p, i)
  {
    WorkLater(n, r - |p|, i, u);
    hide From, Work;
  }

  /** From here on a combination cannot be completed. */
  lemma NoCombination(n: nat, r: nat, p: Tuple, i: nat)
    requires |p| < r && Least(Combinations, p) <= i && n < i + (r - |p|)
    ensures From(Combinations, n, r, p, i) == []
  {
    CountCombinations(n, r, p, i);
    if i <= n { ChooseTooMany(n - i, r - |p|); }
  }

  /** From place lev on, each element is one more than the one before it. */
  method FillUp(n: nat, p: array<nat>, lev: nat)
    requires lev < n == p.Length
    modifies p
    ensures p[..] == old(p[..lev]) + Upward(old(p[lev]), n - lev)
  {
    var l := lev + 1;
    ghost var q, i := p[..lev], p[lev];
    assert Upward(i, n - lev) == [i] + Upward(i + 1, n - lev - 1);
    assert p[..lev + 1] == q + [i];
    while l < n
      invariant lev < l <= n && p[l - 1] == i + (l - lev - 1)
      invariant p[..l] + Upward(i + (l - lev), n - l) == q + Upward(i, n - lev)
    {
      p[l] := p[l - 1] + 1;
      assert Upward(i + (l - lev), n - l) == [i + (l - lev)] + Upward(i + (l - lev) + 1, n - l - 1);
      l := l + 1;
      assert p[..l] == p[..l - 1] + [p[l - 1]];
    }
    assert p[..n] == p[..];
  }

  /** The first k elements go up and leave room for what is to follow. */
  ghost predicate Rising(len: nat, n: nat, p: Tuple, k: nat)
    requires k <= |p|
  {
    forall j :: 0 <= j < k ==> Least(Combinations, p[..j]) <= p[j] && p[j] + (n - j) <= len
  }

  /** The last element that can be increased is; none can be at the end. */
  method NextLevel(len: nat, n: nat, p: array<nat>, ghost rest: seq<Tuple>, ghost a: nat) returns (lev: nat, done: bool)
    requires 1 <= n == p.Length && Rising(len, n, p[..], n)
    requires rest == Remaining(Combinations, len, n, p[..n - 1], p[n - 1] + 1)
             && Ahead(len, n, p[..n - 1], p[n - 1] + 1) < a
    modifies p
    ensures done ==> rest == []
    ensures !done ==> lev < n && Least(Combinations, p[..lev]) <= p[lev] && p[lev] + (n - lev) <= len
                      && Rising(len, n, p[..], lev)
    ensures !done ==> rest == Remaining(Combinations, len, n, p[..lev], p[lev]) && Ahead(len, n, p[..lev], p[lev]) < a
  {
    hide From, Ext, Work, Remaining, Ahead, Rising, Least;
    lev := n;
    while true
      invariant lev <= n && Rising(len, n, p[..], lev)
      invariant lev == 0 ==> rest == []
      invariant lev > 0 ==> rest == Remaining(Combinations, len, n, p[..lev - 1], p[lev - 1] + 1)
                            && Ahead(len, n, p[..lev - 1], p[lev - 1] + 1) < a
      decreases lev
    {
      if lev == 0 { return 0, true; }
      lev := lev - 1;
      ghost var was := p[..];
      RisingAt(len, n, was, lev);
      p[lev] := p[lev] + 1;
      assert p[..lev] == p[..][..lev] == was[..lev];
      Same(len, n, was, p[..], lev);
      if p[lev] + n != len + lev + 1 { return lev, false; }
      NoCombination(len, n, p[..lev], p[lev]);
      if lev > 0 {
        Pop(Combinations, len, n, p[..lev], p[lev]);
        assert p[..lev][..lev - 1] == p[..lev - 1];
      } else {
        Empty(Combinations, len, n, p[lev]);
      }
    }
  }

  lemma RisingAt(len: nat, n: nat, p: Tuple, lev: nat)
    requires lev < |p| && Rising(len, n, p, lev + 1)
    ensures Rising(len, n, p, lev) && Least(Combinations, p[..lev]) <= p[lev] && p[lev] + (n - lev) <= len
  {}

  lemma Same(len: nat, n: nat, p: Tuple, q: Tuple, k: nat)
    requires k <= |p| == |q| && p[..k] == q[..k] && Rising(len, n, p, k)
    ensures Rising(len, n, q, k)
  {
    forall j | 0 <= j < k
      ensures Least(Combinations, q[..j]) <= q[j] && q[j] + (n - j) <= len
    {
      assert q[..j] == p[..k][..j] == p[..j] && q[j] == p[..k][j];
    }
  }

  lemma Empty(kind: Kind, n: nat, r: nat, i: nat)
    requires r > 0 && From(kind, n, r, [], i) == []
    ensures Remaining(kind, n, r, [], i) == []
  {}

  /** `combinate0`; p is the stack without its first element, which is never read. */
  method Combinate0(len: nat, n: nat, p: array<nat>) returns (out: seq<Tuple>)
    requires 2 <= n <= len && p.Length == n
    modifies p
    ensures out == All(Combinations, len, n)
  {
    hide From, Ext, Work, Remaining, Ahead, Upward, Least;
    out := [];
    var lev: nat := 0;
    p[0] := 0;
    Start(Combinations, len, n);
    assert p[..0] == [];
    LeastNone();
    while true
      invariant lev < n && Least(Combinations, p[..lev]) <= p[lev] && p[lev] + (n - lev) <= len
                && Rising(len, n, p[..], lev)
      invariant out + Remaining(Combinations, len, n, p[..lev], p[lev]) == All(Combinations, len, n)
      decreases Ahead(len, n, p[..lev], p[lev])
    {
      ghost var a, q, i := Ahead(len, n, p[..lev], p[lev]), p[..lev], p[lev];
      NextCombination(len, n, q, i);
      UpwardRising(len, n, p[..], lev);
      FillUp(n, p, lev);
      ghost var rest := Remaining(Combinations, len, n, p[..n - 1], p[n - 1] + 1);
      assert p[..][..n - 1] == p[..n - 1] && p[..][n - 1] == p[n - 1];
      assert Remaining(Combinations, len, n, q, i) == [p[..]] + rest;
      out := out + [p[..]];
      var done;
      lev, done := NextLevel(len, n, p, rest, a);
      if done { return; }
    }
  }

  lemma LeastNone()
    ensures Least(Combinations, []) == 0
  {}

  lemma {:induction false} UpwardAt(i: nat, m: nat)
    ensures |Upward(i, m)| == m && forall j :: 0 <= j < m ==> Upward(i, m)[j] == i + j
    decreases m
  {
    if m > 0 { UpwardAt(i + 1, m - 1); }
  }

  /** A tuple that goes straight up to the end is rising. */
  lemma UpwardRising(len: nat, n: nat, p: Tuple, lev: nat)
    requires lev < n == |p| && Rising(len, n, p, lev) && Least(Combinations, p[..lev]) <= p[lev]
             && p[lev] + (n - lev) <= len
    ensures |p[..lev] + Upward(p[lev], n - lev)| == n && Rising(len, n, p[..lev] + Upward(p[lev], n - lev), n)
  {
    UpwardAt(p[lev], n - lev);
    var t := p[..lev] + Upward(p[lev], n - lev);
    forall j | 0 <= j < n
      ensures Least(Combinations, t[..j]) <= t[j] && t[j] + (n - j) <= len
    {
      if j <= lev { assert t[..j] == p[..j]; }
      assert j < lev ==> t[j] == p[j];
    }
  }

  /** `rb_ary_combination`. */
  method Combination(len: nat, n: int) returns (out: seq<Tuple>)
    ensures out == All(Combinations, len, n)
  {
    if n < 0 || len < n {
      out := [];
      if n > 0 { TooLong(len, n); }
    } else if n == 0 {
      out := [[]];
    } else if n == 1 {
      out := Singles(Combinations, len);
    } else {
      var p := new nat[n];
      out := Combinate0(len, n, p);
    }
  }

  //----------------------------------------------------------------------------
  // With repetition

  predicate Repeated(kind: Kind) { kind == RepeatedPermutations || kind == RepeatedCombinations }

  /** The first k elements are below n and fit. */
  ghost predicate Fitting(kind: Kind, n: nat, p: Tuple, k: nat)
    requires k <= |p|
  {
    forall j :: 0 <= j < k ==> Least(kind, p[..j]) <= p[j] < n
  }

  lemma FittingSame(kind: Kind, n: nat, p: Tuple, q: Tuple, k: nat)
    requires k <= |p| && k <= |q| && p[..k] == q[..k] && Fitting(kind, n, p, k)
    ensures Fitting(kind, n, q, k)
  {
    forall j | 0 <= j < k
      ensures Least(kind, q[..j]) <= q[j] < n
    {
      assert q[..j] == p[..k][..j] == p[..j] && q[j] == p[..k][j];
    }
  }

  /** The last place, from i on. */
  method YieldFrom(kind: Kind, n: nat, r: nat, p: array<nat>, i: nat, out: seq<Tuple>) returns (out': seq<Tuple>)
    requires Repeated(kind) && 1 <= r == p.Length && Least(kind, p[..r - 1]) <= i
    modifies p
    ensures p[..r - 1] == old(p[..r - 1]) && out' == out + From(kind, n, r, p[..r - 1], i)
  {
    ghost var q := p[..r - 1];
    out' := out;
    var k := i;
    while k < n
      invariant i <= k && p[..r - 1] == q
      invariant out' + From(kind, n, r, q, k) == out + From(kind, n, r, q, i)
    {
      p[r - 1] := k;
      assert p[..r - 1] == q && p[..] == q + [k];
      FromStep(kind, n, r, q, k);
      Last(kind, n, r, q + [k]);
      out' := out' + [p[..]];
      k := k + 1;
    }
    Nothing(kind, n, r, q, k);
  }

  /** The last element below the last place that can be increased is; with nothing to choose
      from none can. */
  method NextRepeated(kind: Kind, n: nat, r: nat, p: array<nat>, ghost rest: seq<Tuple>, ghost a: nat)
    returns (index: nat, done: bool)
    requires Repeated(kind) && 2 <= r == p.Length
    requires n > 0 ==> Fitting(kind, n, p[..], r - 1)
    requires n > 0 ==> rest == Remaining(kind, n, r, p[..r - 2], p[r - 2] + 1)
                       && Ahead(n, r, p[..r - 2], p[r - 2] + 1) < a
    modifies p
    ensures if n == 0 then done else done ==> rest == []
    ensures !done ==> index < r - 1 && Fitting(kind, n, p[..], index + 1)
    ensures !done ==> rest == Remaining(kind, n, r, p[..index], p[index]) && Ahead(n, r, p[..index], p[index]) < a
  {
    hide From, Ext, Work, Remaining, Ahead, Least;
    index := r - 1;
    while true
      invariant index <= r - 1 && (n > 0 ==> Fitting(kind, n, p[..], index))
      invariant n > 0 && index == 0 ==> rest == []
      invariant n > 0 && index > 0 ==>
        rest == Remaining(kind, n, r, p[..index - 1], p[index - 1] + 1)
        && Ahead(n, r, p[..index - 1], p[index - 1] + 1) < a
      decreases index
    {
      if index <= 0 { return 0, true; }
      index := index - 1;
      ghost var was := p[..];
      p[index] := p[index] + 1;
      assert p[..index] == p[..][..index] == was[..index];
      if n > 0 { FittingSame(kind, n, was, p[..], index); }
      if p[index] < n { return index, false; }
      Nothing(kind, n, r, p[..index], p[index]);
      if index > 0 {
        Pop(kind, n, r, p[..index], p[index]);
        assert p[..index][..index - 1] == p[..index - 1];
      } else {
        Empty(kind, n, r, p[index]);
      }
    }
  }

  /** `rpermute0` and `rcombinate0`, which differ in what a new place starts with: nothing, or
      the element before it. */
  method Repeat0(kind: Kind, n: nat, r: nat, p: array<nat>) returns (out: seq<Tuple>)
    requires Repeated(kind) && 2 <= r == p.Length
    modifies p
    ensures out == All(kind, n, r)
  {
    hide From, Ext, Work, Remaining, Ahead, Least, Fitting;
    var index: nat := 0;
    out := [];
    p[0] := 0;
    Start(kind, n, r);
    assert p[..0] == [];
    FirstFits(kind, n, p[..]);
    if n == 0 { Nothing(kind, n, r, [], 0); }
    while true
      invariant index < r - 1 && (n == 0 ==> out == [])
      invariant n > 0 ==> Fitting(kind, n, p[..], index + 1)
                          && out + Remaining(kind, n, r, p[..index], p[index]) == All(kind, n, r)
      decreases if n == 0 then r - index else Ahead(n, r, p[..index], p[index])
    {
      ghost var q, c := p[..index], p[index];
      ghost var a := Ahead(n, r, q, c);
      var i := if kind == RepeatedPermutations then 0 else p[index];
      assert p[..index + 1] == q + [c];
      LeastSnoc(kind, q, c);
      ghost var was := p[..];
      assert was[..index] == q && was[..index + 1] == q + [c];
      if n > 0 { Placed(kind, n, r, p[..], index); }
      index := index + 1;
      if index < r - 1 {
        p[index] := i;
        assert p[..index] == p[..][..index] == was[..index];
        if n > 0 { Placing(kind, n, r, was, p[..], index); }
      } else {
        out := YieldFrom(kind, n, r, p, i, out);
        assert p[..r - 1] == p[..][..r - 1] == q + [c];
        if n > 0 { FittingSame(kind, n, was, p[..], r - 1); }
        if n == 0 { Nothing(kind, n, r, q + [c], i); }
        assert p[..r - 2] == p[..r - 1][..r - 2] == q && p[r - 2] == p[..r - 1][r - 2] == c;
        var done;
        index, done := NextRepeated(kind, n, r, p, Remaining(kind, n, r, q, c + 1), a);
        if done { return; }
      }
    }
  }

  lemma FirstFits(kind: Kind, n: nat, p: Tuple)
    requires p != [] && p[0] == 0
    ensures n > 0 ==> Fitting(kind, n, p, 1)
  {}

  lemma LeastSnoc(kind: Kind, q: Tuple, c: nat)
    requires Repeated(kind)
    ensures Least(kind, q + [c]) == if kind == RepeatedPermutations then 0 else c
  {}

  /** What the candidate at a place stands for. */
  lemma Placed(kind: Kind, n: nat, r: nat, p: Tuple, index: nat)
    requires Repeated(kind) && index + 1 < r == |p| && Fitting(kind, n, p, index + 1)
    ensures var q, c := p[..index], p[index];
            var i := Least(kind, q + [c]);
            && c < n && Remaining(kind, n, r, q, c) == From(kind, n, r, q + [c], i) + Remaining(kind, n, r, q, c + 1)
            && Ahead(n, r, q, c + 1) < Ahead(n, r, q, c)
            && (index + 2 < r ==> Remaining(kind, n, r, q, c) == Remaining(kind, n, r, q + [c], i)
                                  && Ahead(n, r, q + [c], i) < Ahead(n, r, q, c))
  {
    hide Work;
    var q, c := p[..index], p[index];
    assert Fits(kind, q, c);
    Advance(kind, n, r, q, c);
    SkipLow(kind, n, r, q + [c], 0);
    SkipRemaining(kind, n, r, q + [c], 0, Least(kind, q + [c]));
    if index + 2 < r { Push(kind, n, r, q, c); }
  }

  lemma Placing(kind: Kind, n: nat, r: nat, was: Tuple, p: Tuple, index: nat)
    requires Repeated(kind) && 0 < index < r == |p| == |was| && Fitting(kind, n, was, index)
             && p[..index] == was[..index]
    requires p[index] == if kind == RepeatedPermutations then 0 else was[index - 1]
    ensures Fitting(kind, n, p, index + 1)
  {
    FittingSame(kind, n, was, p, index);
    assert p[index - 1] == was[index - 1] by { assert p[..index][index - 1] == was[..index][index - 1]; }
    assert p[..index][index - 1] == p[index - 1];
  }

  /** `rb_ary_repeated_permutation`. */
  method RepeatedPermutation(n: nat, r: int) returns (out: seq<Tuple>)
    ensures out == All(RepeatedPermutations, n, r)
  {
    if r < 0 {
      out := [];
    } else if r == 0 {
      out := [[]];
    } else if r == 1 {
      out := Singles(RepeatedPermutations, n);
    } else {
      var p := new nat[r];
      out := Repeat0(RepeatedPermutations, n, r, p);
    }
  }

  /** `rb_ary_repeated_combination`. */
  method RepeatedCombination(len: nat, n: int) returns (out: seq<Tuple>)
    ensures out == All(RepeatedCombinations, len, n)
  {
    if n < 0 {
      out := [];
    } else if n == 0 {
      out := [[]];
    } else if n == 1 {
      out := Singles(RepeatedCombinations, len);
    } else if len == 0 {
      out := [];
      Nothing(RepeatedCombinations, 0, n, [], 0);
    } else {
      var p := new nat[n];
      out := Repeat0(RepeatedCombinations, len, n, p);
    }
  }
}

/**
 * What the four enumerators of array.c are to yield: all index tuples of a kind, each once,
 * in lexicographic order.
 */
module Tuples {
  datatype Kind = Permutations | Combinations | RepeatedPermutations | RepeatedCombinations

  type Tuple = seq<nat>

  /** x may follow the elements of p. */
  predicate Fits(kind: Kind, p: Tuple, x: nat)
  {
    match kind
    case Permutations => x !in p
    case Combinations => p == [] || p[|p| - 1] < x
    case RepeatedPermutations => true
    case RepeatedCombinations => p == [] || p[|p| - 1] <= x
  }

  /** The tuples of r indices below n that begin with p and go on with i or more. */
  function From(kind: Kind, n: nat, r: nat, p: Tuple, i: nat): seq<Tuple>
    requires |p| < r
    decreases r - |p|, n - i
  {
    if i >= n then []
    else (if Fits(kind, p, i) then Ext(kind, n, r, p + [i]) else []) + From(kind, n, r, p, i + 1)
  }

  /** The tuples of r indices below n that begin with p. */
  function Ext(kind: Kind, n: nat, r: nat, p: Tuple): seq<Tuple>
    requires |p| <= r
    decreases r - |p|, n + 1
  {
    if |p| == r then [p] else From(kind, n, r, p, 0)
  }

  function All(kind: Kind, n: nat, r: int): seq<Tuple> { if r < 0 then [] else Ext(kind, n, r, []) }

  //----------------------------------------------------------------------------
  // Exactly the tuples of the kind

  predicate Meets(kind: Kind, n: nat, t: Tuple, k: nat)
    requires k < |t|
  {
    t[k] < n && Fits(kind, t[..k], t[k])
  }

  /** The elements from k on are as they should be. */
  ghost predicate Good(kind: Kind, n: nat, t: Tuple, k: nat) { forall j :: k <= j < |t| ==> Meets(kind, n, t, j) }

  ghost predicate Injective(t: Tuple) { forall i, j :: 0 <= i < j < |t| ==> t[i] != t[j] }

  ghost predicate Increasing(t: Tuple) { forall i, j :: 0 <= i < j < |t| ==> t[i] < t[j] }

  ghost predicate Nondecreasing(t: Tuple) { forall i, j :: 0 <= i < j < |t| ==> t[i] <= t[j] }

  ghost predicate Below(n: nat, t: Tuple) { forall i :: 0 <= i < |t| ==> t[i] < n }

  ghost predicate OfKind(kind: Kind, t: Tuple)
  {
    match kind
    case Permutations => Injective(t)
    case Combinations => Increasing(t)
    case RepeatedPermutations => true
    case RepeatedCombinations => Nondecreasing(t)
  }

  lemma {:induction false} GoodMeaning(kind: Kind, n: nat, t: Tuple)
    ensures Good(kind, n, t, 0) <==> Below(n, t) && OfKind(kind, t)
    decreases |t|
  {
    if t != [] {
      var p, x := t[..|t| - 1], t[|t| - 1];
      GoodMeaning(kind, n, p);
      GoodPrefix(kind, n, t);
      assert t == p + [x];
      KindSnoc(kind, p, x);
      assert Below(n, t) <==> Below(n, p) && x < n by {
        assert forall j :: 0 <= j < |p| ==> t[j] == p[j];
      }
    }
  }

  lemma GoodPrefix(kind: Kind, n: nat, t: Tuple)
    requires t != []
    ensures var p, x := t[..|t| - 1], t[|t| - 1];
            Good(kind, n, t, 0) <==> Good(kind, n, p, 0) && x < n && Fits(kind, p, x)
  {
    var p, x := t[..|t| - 1], t[|t| - 1];
    forall j | 0 <= j < |p|
      ensures Meets(kind, n, p, j) <==> Meets(kind, n, t, j)
    {
      assert p[..j] == t[..j];
    }
    assert Meets(kind, n, t, |t| - 1) <==> x < n && Fits(kind, p, x);
  }

  lemma KindSnoc(kind: Kind, p: Tuple, x: nat)
    ensures OfKind(kind, p + [x]) <==> OfKind(kind, p) && Fits(kind, p, x)
  {
    var t := p + [x];
    match kind {
      case Permutations =>
        if Injective(t) {
          assert forall i :: 0 <= i < |p| ==> t[i] == p[i] && t[i] != t[|p|];
          assert Injective(p);
        }
      case Combinations =>
        if Increasing(t) {
          assert forall i :: 0 <= i < |p| ==> t[i] == p[i] && t[i] < t[|p|];
          assert Increasing(p);
        }
      case RepeatedCombinations =>
        if Nondecreasing(t) {
          assert forall i :: 0 <= i < |p| ==> t[i] == p[i] && t[i] <= t[|p|];
          assert Nondecreasing(p);
        }
      case RepeatedPermutations =>
    }
  }

  /** t is one of the tuples that From lists. */
  ghost predicate Member(kind: Kind, n: nat, r: nat, p: Tuple, i: nat, t: Tuple)
    requires |p| < r
  {
    |t| == r && p <= t && i <= t[|p|] && Good(kind, n, t, |p|)
  }

  lemma {:induction false} FromExact(kind: Kind, n: nat, r: nat, p: Tuple, i: nat, t: Tuple)
    requires |p| < r
    ensures t in From(kind, n, r, p, i) <==> Member(kind, n, r, p, i, t)
    decreases r - |p|, n - i
  {
    if i >= n {
      assert Member(kind, n, r, p, i, t) ==> Meets(kind, n, t, |p|);
    } else {
      FromExact(kind, n, r, p, i + 1, t);
      if Fits(kind, p, i) { ExtExact(kind, n, r, p + [i], t); }
      if |t| == r && p <= t && t[|p|] == i {
        assert t[..|p|] == p && t[..|p| + 1] == p + [i];
        assert Good(kind, n, t, |p|) <==> Good(kind, n, t, |p| + 1) && Meets(kind, n, t, |p|);
      }
    }
  }

  lemma {:induction false} ExtExact(kind: Kind, n: nat, r: nat, p: Tuple, t: Tuple)
    requires |p| <= r
    ensures t in Ext(kind, n, r, p) <==> |t| == r && p <= t && Good(kind, n, t, |p|)
    decreases r - |p|, n + 1
  {
    if |p| < r {
      FromExact(kind, n, r, p, 0, t);
    } else {
      assert |t| == r && p <= t <==> t == p;
    }
  }

  /** The list holds the tuples of the kind and no others. */
  lemma AllExact(kind: Kind, n: nat, r: nat, t: Tuple)
    ensures t in All(kind, n, r) <==> |t| == r && Below(n, t) && OfKind(kind, t)
  {
    ExtExact(kind, n, r, [], t);
    GoodMeaning(kind, n, t);
  }

  //----------------------------------------------------------------------------
  // In lexicographic order, so each once

  ghost predicate Less(s: Tuple, t: Tuple)
  {
    exists k :: 0 <= k < |s| && k < |t| && s[..k] == t[..k] && s[k] < t[k]
  }

  ghost predicate Sorted(ts: seq<Tuple>) { forall a, b :: 0 <= a < b < |ts| ==> Less(ts[a], ts[b]) }

  lemma SortedJoin(ss: seq<Tuple>, ts: seq<Tuple>)
    requires Sorted(ss) && Sorted(ts) && forall s, t :: s in ss && t in ts ==> Less(s, t)
    ensures Sorted(ss + ts)
  {}

  lemma {:induction false} FromSorted(kind: Kind, n: nat, r: nat, p: Tuple, i: nat)
    requires |p| < r
    ensures Sorted(From(kind, n, r, p, i))
    decreases r - |p|, n - i
  {
    if i < n {
      FromSorted(kind, n, r, p, i + 1);
      if Fits(kind, p, i) {
        ExtSorted(kind, n, r, p + [i]);
        var ss, ts := Ext(kind, n, r, p + [i]), From(kind, n, r, p, i + 1);
        forall s, t | s in ss && t in ts
          ensures Less(s, t)
        {
          ExtExact(kind, n, r, p + [i], s);
          FromExact(kind, n, r, p, i + 1, t);
          assert s[..|p|] == p == t[..|p|] && s[|p|] == i < t[|p|];
        }
        SortedJoin(ss, ts);
      }
    }
  }

  lemma {:induction false} ExtSorted(kind: Kind, n: nat, r: nat, p: Tuple)
    requires |p| <= r
    ensures Sorted(Ext(kind, n, r, p))
    decreases r - |p|, n + 1
  {
    if |p| < r { FromSorted(kind, n, r, p, 0); }
  }

  /** No tuple is listed twice. */
  lemma AllSorted(kind: Kind, n: nat, r: nat)
    ensures Sorted(All(kind, n, r))
    ensures forall a, b :: 0 <= a < b < |All(kind, n, r)| ==> All(kind, n, r)[a] != All(kind, n, r)[b]
  {
    ExtSorted(kind, n, r, []);
    forall a, b | 0 <= a < b < |All(kind, n, r)|
      ensures All(kind, n, r)[a] != All(kind, n, r)[b]
    {
      assert Less(All(kind, n, r)[a], All(kind, n, r)[b]);
    }
  }
}

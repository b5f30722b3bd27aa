/**
 * `flatten` of array.c: an explicit stack, and a table of the arrays on the current path.
 */
module Flatten {
  type Id = nat

  datatype Element = Leaf(value: int) | Nested(id: Id)

  /** The arrays that exist, by identity; they may contain each other in circles. */
  type Graph = map<Id, seq<Element>>

  ghost predicate Closed(g: Graph)
  {
    forall a, i :: a in g && 0 <= i < |g[a]| && g[a][i].Nested? ==> g[a][i].id in g
  }

  datatype Result = Ok(elements: seq<Element>) | Recursive
  {
    /** Then: what comes first fails first. */
    function Then(r: Result): Result
    {
      match this
      case Recursive => Recursive
      case Ok(s) => match r case Recursive => Recursive case Ok(t) => Ok(s + t)
    }
  }

  /** Distinct arrays, each contained in the one before it. */
  ghost predicate Path(g: Graph, p: seq<Id>)
  {
    && p != [] && (forall i :: 0 <= i < |p| ==> p[i] in g)
    && (forall i, j :: 0 <= i < j < |p| ==> p[i] != p[j])
  }

  lemma {:induction false} PathShort(g: Graph, p: seq<Id>)
    requires Path(g, p)
    ensures |p| <= |g.Keys|
  {
    DistinctSize(p);
    SubsetSize(Members(p), g.Keys);
  }

  ghost function Members(p: seq<Id>): set<Id> { set x | x in p }

  lemma {:induction false} DistinctSize(p: seq<Id>)
    requires forall i, j :: 0 <= i < j < |p| ==> p[i] != p[j]
    ensures |Members(p)| == |p|
    decreases |p|
  {
    if p == [] {
      assert Members(p) == {};
    } else {
      var q, y := p[..|p| - 1], p[|p| - 1];
      assert forall i :: 0 <= i < |q| ==> q[i] == p[i] && p[i] != y;
      DistinctSize(q);
      assert p == q + [y];
      assert Members(p) == Members(q) + {y} && y !in Members(q);
    }
  }

  lemma {:induction false} SubsetSize(s: set<Id>, t: set<Id>)
    requires s <= t
    ensures |s| <= |t|
  {
    if s != {} {
      var x :| x in s;
      SubsetSize(s - {x}, t - {x});
    }
  }

  /** Elements at this depth are taken as they are. */
  predicate Deep(level: int, depth: nat) { level >= 0 && depth >= level }

  function Last(p: seq<Id>): Id
    requires p != []
  {
    p[|p| - 1]
  }

  //----------------------------------------------------------------------------
  // The recursive definition

  /** Flattens the last array of a path from element i on. */
  ghost function FlatFrom(g: Graph, level: int, p: seq<Id>, i: nat): Result
    requires Closed(g) && Path(g, p)
    decreases |g.Keys| - |p|, |g[Last(p)]| - i
  {
    PathShort(g, p);
    var a := g[Last(p)];
    if i >= |a| then Ok([])
    else if a[i].Leaf? || Deep(level, |p| - 1) then Ok([a[i]]).Then(FlatFrom(g, level, p, i + 1))
    else if a[i].id in p then Recursive
    else
      assert Path(g, p + [a[i].id]);
      PathShort(g, p + [a[i].id]);
      FlatFrom(g, level, p + [a[i].id], 0).Then(FlatFrom(g, level, p, i + 1))
  }

  /** What an array makes of its elements, to a depth, without looking for circles. */
  function Unfold(g: Graph, depth: nat, a: Id, i: nat): seq<Element>
    requires Closed(g) && a in g
    decreases depth, |g[a]| - i
  {
    if i >= |g[a]| then []
    else if g[a][i].Leaf? || depth == 0 then [g[a][i]] + Unfold(g, depth, a, i + 1)
    else Unfold(g, depth - 1, g[a][i].id, 0) + Unfold(g, depth, a, i + 1)
  }

  /** To a level: without an error the result is the unfolding to that depth. */
  lemma {:induction false} LevelUnfolds(g: Graph, level: nat, p: seq<Id>, i: nat)
    requires Closed(g) && Path(g, p) && |p| - 1 <= level
    ensures FlatFrom(g, level, p, i).Ok? ==>
      FlatFrom(g, level, p, i).elements == Unfold(g, level - (|p| - 1), Last(p), i)
    decreases level - |p|, |g[Last(p)]| - i
  {
    var a := g[Last(p)];
    if i < |a| {
      LevelUnfolds(g, level, p, i + 1);
      if a[i].Nested? && |p| - 1 < level && a[i].id !in p {
        assert Path(g, p + [a[i].id]);
        LevelUnfolds(g, level, p + [a[i].id], 0);
      }
    }
  }

  /** Without a level: without an error the result is the unfolding to any depth beyond the
      number of arrays, and no array is left in it. */
  lemma {:induction false} FullyUnfolds(g: Graph, level: int, p: seq<Id>, i: nat, depth: nat)
    requires Closed(g) && Path(g, p) && level < 0 && |g.Keys| - |p| <= depth
    ensures FlatFrom(g, level, p, i).Ok? ==>
      && FlatFrom(g, level, p, i).elements == Unfold(g, depth, Last(p), i)
      && forall k :: 0 <= k < |FlatFrom(g, level, p, i).elements| ==> FlatFrom(g, level, p, i).elements[k].Leaf?
    decreases depth, |g[Last(p)]| - i
  {
    var a := g[Last(p)];
    if i < |a| {
      FullyUnfolds(g, level, p, i + 1, depth);
      if a[i].Nested? && a[i].id !in p {
        assert Path(g, p + [a[i].id]);
        PathShort(g, p + [a[i].id]);
        FullyUnfolds(g, level, p + [a[i].id], 0, depth - 1);
      }
    }
  }

  //----------------------------------------------------------------------------
  // When it fails

  /** p, followed by arrays contained in each other, the last of which is on the way there
      already, and no deeper than the level. */
  ghost predicate Circle(g: Graph, level: int, p: seq<Id>, w: seq<Id>)
  {
    && Path(g, p) && |p| < |w| && p <= w && Path(g, w[..|w| - 1]) && Last(w) in w[..|w| - 1]
    && (forall k :: |p| - 1 <= k < |w| - 1 ==> w[k] in g && Nested(w[k + 1]) in g[w[k]])
    && (level >= 0 ==> |w| - 1 <= level)
  }

  lemma {:induction false} CircleFound(g: Graph, level: int, p: seq<Id>, i: nat) returns (w: seq<Id>)
    requires Closed(g) && Path(g, p) && FlatFrom(g, level, p, i).Recursive?
    ensures Circle(g, level, p, w)
    decreases |g.Keys| - |p|, |g[Last(p)]| - i
  {
    PathShort(g, p);
    var a := g[Last(p)];
    if a[i].Leaf? || Deep(level, |p| - 1) {
      w := CircleFound(g, level, p, i + 1);
    } else if a[i].id in p {
      w := p + [a[i].id];
      assert w[..|w| - 1] == p;
    } else {
      var q := p + [a[i].id];
      assert Path(g, q);
      PathShort(g, q);
      if FlatFrom(g, level, q, 0).Recursive? {
        w := CircleFound(g, level, q, 0);
        assert w[|p|] == q[|p|] && w[..|p|] == q[..|p|] == p && w[|p| - 1] == Last(p);
      } else {
        w := CircleFound(g, level, p, i + 1);
      }
    }
  }

  lemma {:induction false} CircleFails(g: Graph, level: int, p: seq<Id>, i: nat, w: seq<Id>)
    requires Closed(g) && Circle(g, level, p, w) && i <= |g[Last(p)]| && Nested(w[|p|]) in g[Last(p)][i..]
    ensures FlatFrom(g, level, p, i).Recursive?
    decreases |g.Keys| - |p|, |g[Last(p)]| - i
  {
    PathShort(g, p);
    var a := g[Last(p)];
    assert !Deep(level, |p| - 1);
    if a[i] == Nested(w[|p|]) {
      if w[|p|] !in p {
        var q := p + [w[|p|]];
        assert Path(g, q);
        PathShort(g, q);
        assert w[..|p|] == p;
        assert q <= w;
        assert Nested(w[|q|]) in g[Last(q)][0..] by {
          assert g[Last(q)][0..] == g[Last(q)];
          assert w[|q| - 1] == Last(q);
        }
        CircleFails(g, level, q, 0, w);
      }
    } else {
      assert a[i..] == [a[i]] + a[i + 1..];
      CircleFails(g, level, p, i + 1, w);
    }
  }

  /** Flattening fails exactly when following nested arrays, no deeper than the level, leads
      back to an array on the way. */
  lemma FailsIff(g: Graph, level: int, a: Id)
    requires Closed(g) && a in g
    ensures FlatFrom(g, level, [a], 0).Recursive? <==> exists w :: Circle(g, level, [a], w)
  {
    if FlatFrom(g, level, [a], 0).Recursive? {
      var w := CircleFound(g, level, [a], 0);
    }
    if w :| Circle(g, level, [a], w) {
      assert g[Last([a])][0..] == g[a] && w[0] == a;
      CircleFails(g, level, [a], 0, w);
    }
  }

  //----------------------------------------------------------------------------
  // The loop

  /** The arrays on the stack and the current one. */
  function Trail(stack: seq<(Id, nat)>, a: Id): (p: seq<Id>)
    ensures |p| == |stack| + 1 && Last(p) == a
    decreases |stack|
  {
    if stack == [] then [a] else Trail(stack[..|stack| - 1], stack[|stack| - 1].0) + [a]
  }

  ghost predicate Position(g: Graph, stack: seq<(Id, nat)>, a: Id) { Closed(g) && Path(g, Trail(stack, a)) }

  lemma Shorter(g: Graph, stack: seq<(Id, nat)>, a: Id)
    requires Position(g, stack, a) && stack != []
    ensures var t := stack[|stack| - 1];
            Position(g, stack[..|stack| - 1], t.0) && a !in Trail(stack[..|stack| - 1], t.0)
  {
    var p, q := Trail(stack, a), Trail(stack[..|stack| - 1], stack[|stack| - 1].0);
    assert p == q + [a];
    assert forall i :: 0 <= i < |q| ==> q[i] == p[i];
  }

  /** What is still to be done. */
  ghost function Rest(g: Graph, level: int, stack: seq<(Id, nat)>, a: Id, i: nat): Result
    requires Position(g, stack, a)
    decreases |stack|
  {
    var here := FlatFrom(g, level, Trail(stack, a), i);
    if stack == [] then here
    else
      Shorter(g, stack, a);
      var t := stack[|stack| - 1];
      here.Then(Rest(g, level, stack[..|stack| - 1], t.0, t.1))
  }

  /** The elements still to be looked at in the last array of a path. */
  ghost function Cost(g: Graph, level: int, p: seq<Id>, i: nat): (c: nat)
    requires Closed(g) && Path(g, p)
    ensures c >= 1
    decreases |g.Keys| - |p|, |g[Last(p)]| - i
  {
    PathShort(g, p);
    var a := g[Last(p)];
    if i >= |a| then 1
    else
      1 + (if a[i].Leaf? || Deep(level, |p| - 1) || a[i].id in p then 0
           else
             assert Path(g, p + [a[i].id]);
             PathShort(g, p + [a[i].id]);
             Cost(g, level, p + [a[i].id], 0)) + Cost(g, level, p, i + 1)
  }

  ghost function Ahead(g: Graph, level: int, stack: seq<(Id, nat)>, a: Id, i: nat): nat
    requires Position(g, stack, a)
    decreases |stack|
  {
    Cost(g, level, Trail(stack, a), i) +
    if stack == [] then 0
    else
      Shorter(g, stack, a);
      var t := stack[|stack| - 1];
      Ahead(g, level, stack[..|stack| - 1], t.0, t.1)
  }

  /** An element is taken as it is. */
  lemma Take(g: Graph, level: int, stack: seq<(Id, nat)>, a: Id, i: nat)
    requires Position(g, stack, a) && i < |g[a]| && (g[a][i].Leaf? || Deep(level, |stack|))
    ensures Rest(g, level, stack, a, i) == Ok([g[a][i]]).Then(Rest(g, level, stack, a, i + 1))
    ensures Ahead(g, level, stack, a, i + 1) < Ahead(g, level, stack, a, i)
  {}

  lemma Fail(g: Graph, level: int, stack: seq<(Id, nat)>, a: Id, i: nat)
    requires Position(g, stack, a) && i < |g[a]| && g[a][i].Nested? && !Deep(level, |stack|)
             && g[a][i].id in Trail(stack, a)
    ensures Rest(g, level, stack, a, i).Recursive?
  {}

  lemma EnterTrail(g: Graph, stack: seq<(Id, nat)>, a: Id, i: nat)
    requires Position(g, stack, a) && i < |g[a]| && g[a][i].Nested? && g[a][i].id !in Trail(stack, a)
    ensures var s, b := stack + [(a, i + 1)], g[a][i].id;
            Trail(s, b) == Trail(stack, a) + [b] && Position(g, s, b)
  {
    assert (stack + [(a, i + 1)])[..|stack|] == stack;
  }

  /** The nested array, then what follows it. */
  lemma EnterFlat(g: Graph, level: int, p: seq<Id>, i: nat)
    requires Closed(g) && Path(g, p) && i < |g[Last(p)]| && g[Last(p)][i].Nested? && !Deep(level, |p| - 1)
             && g[Last(p)][i].id !in p
    ensures var q := p + [g[Last(p)][i].id];
            && Path(g, q) && FlatFrom(g, level, p, i) == FlatFrom(g, level, q, 0).Then(FlatFrom(g, level, p, i + 1))
            && Cost(g, level, p, i) == 1 + Cost(g, level, q, 0) + Cost(g, level, p, i + 1)
  {
    var q := p + [g[Last(p)][i].id];
    assert Path(g, q);
    PathShort(g, q);
  }

  /** What is left to do is done here first. */
  lemma RestHere(g: Graph, level: int, stack: seq<(Id, nat)>, a: Id, i: nat, x: Result, j: nat)
    requires Position(g, stack, a) && FlatFrom(g, level, Trail(stack, a), i) ==
             x.Then(FlatFrom(g, level, Trail(stack, a), j))
    ensures Rest(g, level, stack, a, i) == x.Then(Rest(g, level, stack, a, j))
  {
    hide FlatFrom, Path;
  }

  lemma RestPushed(g: Graph, level: int, stack: seq<(Id, nat)>, a: Id, j: nat, b: Id)
    requires Position(g, stack, a) && Position(g, stack + [(a, j)], b)
    ensures var s := stack + [(a, j)];
            && Rest(g, level, s, b, 0) == FlatFrom(g, level, Trail(s, b), 0).Then(Rest(g, level, stack, a, j))
            && Ahead(g, level, s, b, 0) == Cost(g, level, Trail(s, b), 0) + Ahead(g, level, stack, a, j)
  {
    hide FlatFrom, Path, Cost;
    assert (stack + [(a, j)])[..|stack|] == stack;
  }

  lemma AheadHere(g: Graph, level: int, stack: seq<(Id, nat)>, a: Id, i: nat, j: nat)
    requires Position(g, stack, a)
    ensures Ahead(g, level, stack, a, i) - Cost(g, level, Trail(stack, a), i) ==
            Ahead(g, level, stack, a, j) - Cost(g, level, Trail(stack, a), j)
  {
    hide Cost, Path;
  }

  /** A nested array is entered. */
  lemma Enter(g: Graph, level: int, stack: seq<(Id, nat)>, a: Id, i: nat)
    requires Position(g, stack, a) && i < |g[a]| && g[a][i].Nested? && !Deep(level, |stack|)
             && g[a][i].id !in Trail(stack, a)
    ensures var s := stack + [(a, i + 1)];
            && Trail(s, g[a][i].id) == Trail(stack, a) + [g[a][i].id] && Position(g, s, g[a][i].id)
            && Rest(g, level, stack, a, i) == Rest(g, level, s, g[a][i].id, 0)
            && Ahead(g, level, s, g[a][i].id, 0) < Ahead(g, level, stack, a, i)
  {
    hide FlatFrom, Cost, Path, Trail, Rest, Ahead;
    Known(g, stack, a);
    var p, b := Trail(stack, a), g[a][i].id;
    EnterTrail(g, stack, a, i);
    EnterFlat(g, level, p, i);
    RestHere(g, level, stack, a, i, FlatFrom(g, level, p + [b], 0), i + 1);
    RestPushed(g, level, stack, a, i + 1, b);
    AheadHere(g, level, stack, a, i, i + 1);
  }

  /** Back to the array it is contained in. */
  lemma Leave(g: Graph, level: int, stack: seq<(Id, nat)>, a: Id, i: nat)
    requires Position(g, stack, a) && |g[a]| <= i && stack != []
    ensures var t, s := stack[|stack| - 1], stack[..|stack| - 1];
            && Position(g, s, t.0) && a !in Trail(s, t.0) && Trail(stack, a) == Trail(s, t.0) + [a]
            && Rest(g, level, stack, a, i) == Rest(g, level, s, t.0, t.1)
               && Ahead(g, level, s, t.0, t.1) < Ahead(g, level, stack, a, i)
  {
    Shorter(g, stack, a);
  }

  /** There is a nested array among the first n elements. */
  ghost predicate HasNested(a: seq<Element>, n: nat) { exists k :: 0 <= k < n && k < |a| && a[k].Nested? }

  /** How far the outermost array has been gone through. */
  function Progress(stack: seq<(Id, nat)>, i: nat): nat { if stack == [] then i else stack[0].1 }

  /** `flatten`: the result, and whether anything nested was found. */
  method Flat(g: Graph, ary: Id, level: int) returns (r: Result, modified: bool)
    requires Closed(g) && ary in g
    ensures r == FlatFrom(g, level, [ary], 0)
    ensures modified <==> level != 0 && HasNested(g[ary], |g[ary]|)
  {
    hide FlatFrom, Rest, Ahead, Cost, Trail, Path, Members;
    var a, i: nat, stack: seq<(Id, nat)>, result, memo := ary, 0, [], [], {ary};
    modified := false;
    Begin(g, ary, level);
    while true
      invariant Position(g, stack, a) && a in g && memo == Members(Trail(stack, a))
      invariant Ok(result).Then(Rest(g, level, stack, a, i)) == FlatFrom(g, level, [ary], 0)
      invariant if stack == [] then a == ary else modified && level != 0 && stack[0].0 == ary
      invariant Progress(stack, i) <= |g[ary]| && (modified <==> level != 0 && HasNested(g[ary], Progress(stack, i)))
      decreases Ahead(g, level, stack, a, i)
    {
      if i < |g[a]| {
        var elt := g[a][i];
        if (level >= 0 && |stack| >= level) || elt.Leaf? {
          Take(g, level, stack, a, i);
          result := result + [elt];
          i := i + 1;
        } else {
          modified := true;
          Looked(g, stack, a, elt.id);
          if elt.id in memo {
            Fail(g, level, stack, a, i);
            assert stack == [] ==> HasNested(g[ary], |g[ary]|);
            return Recursive, true;
          }
          Enter(g, level, stack, a, i);
          memo := memo + {elt.id};
          stack := stack + [(a, i + 1)];
          a, i := elt.id, 0;
          Known(g, stack, a);
        }
      } else {
        if stack == [] { break; }
        Leave(g, level, stack, a, i);
        var t := stack[|stack| - 1];
        Left(memo, stack, a);
        memo := memo - {a};
        a, i, stack := t.0, t.1, stack[..|stack| - 1];
        Known(g, stack, a);
      }
    }
    End(g, level, ary, i);
    r := Ok(result);
  }

  lemma Begin(g: Graph, ary: Id, level: int)
    requires Closed(g) && ary in g
    ensures Path(g, [ary]) && Position(g, [], ary) && {ary} == Members(Trail([], ary))
            && Rest(g, level, [], ary, 0) == FlatFrom(g, level, [ary], 0)
  {}

  lemma End(g: Graph, level: int, ary: Id, i: nat)
    requires Position(g, [], ary) && ary in g && |g[ary]| <= i
    ensures Rest(g, level, [], ary, i) == Ok([])
  {}

  lemma Known(g: Graph, stack: seq<(Id, nat)>, a: Id)
    requires Position(g, stack, a)
    ensures a in g
  {
    assert Trail(stack, a)[|stack|] == a;
  }

  /** The table answers for the trail. */
  lemma Looked(g: Graph, stack: seq<(Id, nat)>, a: Id, b: Id)
    ensures b in Members(Trail(stack, a)) <==> b in Trail(stack, a)
    ensures Members(Trail(stack, a) + [b]) == Members(Trail(stack, a)) + {b}
  {}

  lemma Left(memo: set<Id>, stack: seq<(Id, nat)>, a: Id)
    requires memo == Members(Trail(stack, a)) && stack != []
    requires var q := Trail(stack[..|stack| - 1], stack[|stack| - 1].0); a !in q && Trail(stack, a) == q + [a]
    ensures memo - {a} == Members(Trail(stack[..|stack| - 1], stack[|stack| - 1].0))
  {}
}

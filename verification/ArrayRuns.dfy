/**
 * Whole runs: whatever a program does to its arrays, they behave like independent sequences.
 */
module ArrayRuns {
  import opened ArrayState
  import opened ArrayHeap
  import opened ArrayOps

  /** Where a run may store: not at the last index there is, see Store. */
  type Index = i: int | i != ARY_MAX_SIZE - 1 witness 0

  /** A program keeps its arrays in numbered variables; new arrays get the next number. */
  datatype Op =
    | MakeNew(vs: seq<Value>)
    | Append(i: nat, vs: seq<Value>)
    | PopLast(i: nat)
    | PopSome(i: nat, n: int)
    | ShiftFirst(i: nat)
    | ShiftSome(i: nat, n: int)
    | PrependAll(i: nat, vs: seq<Value>)
    | StoreOne(i: nat, idx: Index, v: Value)
    | SliceOf(i: nat, beg: int, len: int)
    | ReplaceBy(i: nat, j: nat)
    | Empty(i: nat)
    | MakeFrozen(i: nat)

  /** What a program gets back beside new arrays. */
  datatype Reply = Reply(error: Error, value: Value)

  const DONE: Reply := Reply(NoError, Nil)

  /** What one operation does to plain sequences, and what it answers: an exception leaves them
      as they are, and so does a variable there is not. */
  ghost predicate Next(s: seq<View>, op: Op, r: Reply, t: seq<View>)
  {
    match op
    case MakeNew(vs) =>
      if |vs| <= ARY_MAX_SIZE then r == DONE && t == s + [View(vs, false)] else Raises(s, ArgumentError, r, t)
    case Append(i, vs) =>
      if i >= |s| then Raises(s, NoError, r, t)
      else if |s[i].elements| + |vs| > ARY_MAX_SIZE then Raises(s, IndexError, r, t)
      else if s[i].frozen then Raises(s, FrozenError, r, t)
      else r == DONE && t == Set(s, i, s[i].elements + vs)
    case PopLast(i) =>
      if i >= |s| then Raises(s, NoError, r, t)
      else if s[i].frozen then Raises(s, FrozenError, r, t)
      else if s[i].elements == [] then r == DONE && t == s
      else var c := s[i].elements; r == Reply(NoError, c[|c| - 1]) && t == Set(s, i, c[..|c| - 1])
    case PopSome(i, n) =>
      if i >= |s| then Raises(s, NoError, r, t)
      else if s[i].frozen then Raises(s, FrozenError, r, t)
      else if n < 0 then Raises(s, ArgumentError, r, t)
      else
        var c := s[i].elements;
        var k := |c| - Taken(c, n);
        r == DONE && t == Set(s, i, c[..k]) + [View(c[k..], false)]
    case ShiftFirst(i) =>
      if i >= |s| then Raises(s, NoError, r, t)
      else if s[i].frozen then Raises(s, FrozenError, r, t)
      else if s[i].elements == [] then r == DONE && t == s
      else var c := s[i].elements; r == Reply(NoError, c[0]) && t == Set(s, i, c[1..])
    case ShiftSome(i, n) =>
      if i >= |s| then Raises(s, NoError, r, t)
      else if s[i].frozen then Raises(s, FrozenError, r, t)
      else if n < 0 then Raises(s, ArgumentError, r, t)
      else
        var c := s[i].elements;
        var k := Taken(c, n);
        r == DONE && t == Set(s, i, c[k..]) + [View(c[..k], false)]
    case PrependAll(i, vs) =>
      // a frozen array is sometimes changed all the same: see Unchecked
      if i >= |s| then Raises(s, NoError, r, t)
      else if vs != [] && |s[i].elements| + |vs| > ARY_MAX_SIZE then Raises(s, IndexError, r, t)
      else (s[i].frozen && Raises(s, FrozenError, r, t))
           || (r == DONE && t == s[i := View(vs + s[i].elements, s[i].frozen)])
    case StoreOne(i, idx, v) =>
      if i >= |s| then Raises(s, NoError, r, t)
      else if idx + |s[i].elements| < 0 || idx >= ARY_MAX_SIZE then Raises(s, IndexError, r, t)
      else if s[i].frozen then Raises(s, FrozenError, r, t)
      else r == DONE && t == Set(s, i, Stored(s[i].elements, if idx < 0 then idx + |s[i].elements| else idx, v))
    case SliceOf(i, beg, len) =>
      r == DONE &&
      t == if i < |s| && 0 <= beg <= |s[i].elements| && 0 <= len
           then s + [View(Slice(s[i].elements, beg, len), false)]
           else s
    case ReplaceBy(i, j) =>
      if i >= |s| || j >= |s| then Raises(s, NoError, r, t)
      else if s[i].frozen then Raises(s, FrozenError, r, t)
      else r == DONE && t == Set(s, i, s[j].elements)
    case Empty(i) =>
      if i >= |s| then Raises(s, NoError, r, t)
      else if s[i].frozen then Raises(s, FrozenError, r, t)
      else r == DONE && t == Set(s, i, [])
    case MakeFrozen(i) =>
      r == DONE && t == if i < |s| then s[i := View(s[i].elements, true)] else s
  }

  ghost predicate Raises(s: seq<View>, e: Error, r: Reply, t: seq<View>) { r == Reply(e, Nil) && t == s }

  function Set(s: seq<View>, i: nat, c: seq<Value>): seq<View>
    requires i < |s|
  {
    s[i := View(c, false)]
  }

  ghost function Listed(m: Views, vars: seq<RArray>): (s: seq<View>)
    requires forall a :: a in vars ==> a in m
    ensures |s| == |vars| && forall i :: 0 <= i < |s| ==> s[i] == m[vars[i]]
  {
    seq(|vars|, i requires 0 <= i < |vars| => assert vars[i] in vars; m[vars[i]])
  }

  ghost predicate Distinct(vars: seq<RArray>) { forall i, j :: 0 <= i < j < |vars| ==> vars[i] != vars[j] }

  ghost predicate Program(h: Heap, vars: seq<RArray>)
    reads *
  {
    h.Valid() && Distinct(vars) && forall a :: a in vars ==> a in h.Visible()
  }

  ghost function State(h: Heap, vars: seq<RArray>): seq<View>
    requires Program(h, vars)
    reads *
  {
    Listed(h.Visible(), vars)
  }

  lemma SetView(m: Views, vars: seq<RArray>, i: nat, x: View)
    requires Distinct(vars) && (forall a :: a in vars ==> a in m) && i < |vars|
    ensures Listed(m[vars[i] := x], vars) == Listed(m, vars)[i := x]
  {
    var s, t := Listed(m[vars[i] := x], vars), Listed(m, vars)[i := x];
    forall j | 0 <= j < |vars|
      ensures s[j] == t[j]
    {
      assert j < i ==> vars[j] != vars[i];
      assert i < j ==> vars[i] != vars[j];
    }
  }

  lemma AddView(m: Views, vars: seq<RArray>, r: RArray, x: View)
    requires (forall a :: a in vars ==> a in m) && r !in vars
    ensures Listed(m[r := x], vars + [r]) == Listed(m, vars) + [x]
  {
    forall j | 0 <= j < |vars|
      ensures Listed(m[r := x], vars + [r])[j] == Listed(m, vars)[j]
    {
      assert vars[j] in vars;
    }
  }

  /** What a method needs to know of a variable, and what it learns of its contents. */
  lemma Variable(h: Heap, vars: seq<RArray>, i: nat)
    requires Program(h, vars) && i < |vars|
    ensures Ready(h, vars[i]) && State(h, vars)[i] == View(vars[i].Contents(), vars[i].frozen)
  {
    assert vars[i] in vars;
  }

  /** One variable got new contents. */
  lemma Changed(h: Heap, vars: seq<RArray>, v: Views, i: nat, x: View)
    requires h.Valid() && Distinct(vars) && (forall a :: a in vars ==> a in v) && i < |vars|
    requires h.Visible() == v[vars[i] := x]
    ensures Program(h, vars) && State(h, vars) == Listed(v, vars)[i := x]
  {
    SetView(v, vars, i, x);
  }

  /** One variable was added. */
  lemma Extended(h: Heap, vars: seq<RArray>, v: Views, r: RArray, x: View)
    requires h.Valid() && Distinct(vars) && (forall a :: a in vars ==> a in v) && r !in vars
    requires h.Visible() == v[r := x]
    ensures Program(h, vars + [r]) && State(h, vars + [r]) == Listed(v, vars) + [x]
  {
    AddView(v, vars, r, x);
  }

  /** An operation that changes the contents of one array. */
  method Change(h: Heap, vars: seq<RArray>, op: Op) returns (r: Reply)
    requires Program(h, vars) && (op.Append? || op.PopLast? || op.ShiftFirst? || op.PrependAll? || op.StoreOne?)
    modifies h, h.arrays, h.live
    ensures Program(h, vars) && h.Grows() && Next(old(State(h, vars)), op, r, State(h, vars))
  {
    hide Inv, Heap.Visible, Listed, RArray.Contents, Stored, ArrayOps.Unchecked;
    ghost var v: Views, s := h.Visible(), State(h, vars);
    var i := op.i;
    r := DONE;
    if i >= |vars| { return; }
    var a := vars[i];
    Variable(h, vars, i);
    match op {
      case Append(_, vs) =>
        var e := Cat(h, a, vs);
        r := Reply(e, Nil);
        if e.NoError? { Changed(h, vars, v, i, View(s[i].elements + vs, false)); }
      case PopLast(_) =>
        var e, x := Pop(h, a);
        r := Reply(e, x);
        if e.NoError? && s[i].elements != [] {
          Changed(h, vars, v, i, View(s[i].elements[..|s[i].elements| - 1], false));
        }
      case ShiftFirst(_) =>
        var e, x := Shift(h, a);
        r := Reply(e, x);
        if e.NoError? && s[i].elements != [] { Changed(h, vars, v, i, View(s[i].elements[1..], false)); }
      case PrependAll(_, vs) =>
        var e := Unshift(h, a, vs);
        r := Reply(e, Nil);
        assert vs == [] ==> vs + s[i].elements == s[i].elements;
        if e.NoError? { Changed(h, vars, v, i, View(vs + s[i].elements, s[i].frozen)); }
      case StoreOne(_, idx, x) =>
        var e := Store(h, a, idx, x);
        r := Reply(e, Nil);
        if e.NoError? {
          Changed(h, vars, v, i, View(Stored(s[i].elements, if idx < 0 then idx + |s[i].elements| else idx, x), false));
        }
    }
  }

  method Adjust(h: Heap, vars: seq<RArray>, op: Op) returns (r: Reply)
    requires Program(h, vars) && (op.ReplaceBy? || op.Empty? || op.MakeFrozen?)
    modifies h, h.arrays, h.live
    ensures Program(h, vars) && h.Grows() && Next(old(State(h, vars)), op, r, State(h, vars))
  {
    hide Inv, Heap.Visible, Listed, RArray.Contents;
    ghost var v: Views, s := h.Visible(), State(h, vars);
    var i := op.i;
    r := DONE;
    if i >= |vars| { return; }
    var a := vars[i];
    Variable(h, vars, i);
    match op {
      case ReplaceBy(_, j) =>
        if j < |vars| {
          Variable(h, vars, j);
          var e := Replace(h, a, vars[j]);
          r := Reply(e, Nil);
          if e.NoError? { Changed(h, vars, v, i, View(s[j].elements, false)); }
        }
      case Empty(_) =>
        var e := Clear(h, a);
        r := Reply(e, Nil);
        if e.NoError? { Changed(h, vars, v, i, View([], false)); }
      case MakeFrozen(_) =>
        h.Freeze(a);
        Changed(h, vars, v, i, View(s[i].elements, true));
    }
  }

  /** An operation that makes an array. */
  method Create(h: Heap, vars: seq<RArray>, op: Op) returns (w: seq<RArray>, r: Reply)
    requires Program(h, vars) && (op.MakeNew? || op.SliceOf? || op.PopSome? || op.ShiftSome?)
    modifies h, h.arrays, h.live
    ensures Program(h, w) && h.Grows() && Next(old(State(h, vars)), op, r, State(h, w))
  {
    hide Inv, Heap.Visible, Listed, RArray.Contents, Taken, Slice;
    ghost var v: Views, s := h.Visible(), State(h, vars);
    w, r := vars, DONE;
    match op {
      case MakeNew(vs) =>
        if |vs| <= ARY_MAX_SIZE {
          var b := NewFromValues(h, vs);
          Extended(h, vars, v, b, View(vs, false));
          w := vars + [b];
        } else {
          r := Reply(ArgumentError, Nil);
        }
      case SliceOf(i, beg, len) =>
        if i < |vars| {
          Variable(h, vars, i);
          var b := Subseq(h, vars[i], beg, len);
          if b != null {
            Extended(h, vars, v, b, View(Slice(s[i].elements, beg, len), false));
            w := vars + [b];
          }
        }
      case PopSome(i, n) =>
        if i < |vars| {
          Variable(h, vars, i);
          var e, b := PopMany(h, vars[i], n);
          r := Reply(e, Nil);
          if b != null {
            ghost var k := |s[i].elements| - Taken(s[i].elements, n);
            Both(h, vars, v, i, b, View(s[i].elements[..k], false), View(s[i].elements[k..], false));
            w := vars + [b];
          }
        }
      case ShiftSome(i, n) =>
        if i < |vars| {
          Variable(h, vars, i);
          var e, b := ShiftMany(h, vars[i], n);
          r := Reply(e, Nil);
          if b != null {
            ghost var k := Taken(s[i].elements, n);
            Both(h, vars, v, i, b, View(s[i].elements[k..], false), View(s[i].elements[..k], false));
            w := vars + [b];
          }
        }
    }
  }

  lemma Both(h: Heap, vars: seq<RArray>, v: Views, i: nat, r: RArray, x: View, y: View)
    requires h.Valid() && Distinct(vars) && (forall a :: a in vars ==> a in v) && r !in vars && i < |vars|
    requires h.Visible() == v[r := y][vars[i] := x]
    ensures Program(h, vars + [r]) && State(h, vars + [r]) == Listed(v, vars)[i := x] + [y]
  {
    assert v[r := y][vars[i] := x] == v[vars[i] := x][r := y];
    SetView(v, vars, i, x);
    AddView(v[vars[i] := x], vars, r, y);
  }

  method Execute(h: Heap, vars: seq<RArray>, op: Op) returns (w: seq<RArray>, r: Reply)
    requires Program(h, vars)
    modifies h, h.arrays, h.live
    ensures Program(h, w) && h.Grows() && Next(old(State(h, vars)), op, r, State(h, w))
  {
    hide Inv, Heap.Visible, Listed, RArray.Contents, Next;
    if op.MakeNew? || op.SliceOf? || op.PopSome? || op.ShiftSome? {
      w, r := Create(h, vars, op);
    } else {
      w := vars;
      if op.ReplaceBy? || op.Empty? || op.MakeFrozen? {
        r := Adjust(h, vars, op);
      } else {
        r := Change(h, vars, op);
      }
    }
  }

  /** A run, with the states and answers a reader of plain sequences expects. */
  ghost predicate Trace(states: seq<seq<View>>, ops: seq<Op>, replies: seq<Reply>)
  {
    && |states| == |ops| + 1 && |replies| == |ops| && states[0] == []
    && forall k :: 0 <= k < |ops| ==> Next(states[k], ops[k], replies[k], states[k + 1])
  }

  /** From an empty heap, every sequence of operations: the invariant holds at the end, every answer
      is the one expected, and what the variables show went through the states of plain
      sequences. */
  method Run(ops: seq<Op>) returns (h: Heap, vars: seq<RArray>, replies: seq<Reply>, ghost states: seq<seq<View>>)
    ensures Program(h, vars) && Trace(states, ops, replies) && State(h, vars) == states[|ops|]
  {
    hide Inv, Heap.Visible, Listed, RArray.Contents, Next;
    h := new Heap();
    vars, replies := [], [];
    states := [[]];
    for k := 0 to |ops|
      invariant fresh(h) && fresh(h.arrays) && fresh(h.live)
      invariant Program(h, vars) && Trace(states, ops[..k], replies) && State(h, vars) == states[k]
    {
      var r;
      vars, r := Execute(h, vars, ops[k]);
      assert ops[..k + 1] == ops[..k] + [ops[k]];
      replies := replies + [r];
      states := states + [State(h, vars)];
    }
    assert ops[..|ops|] == ops;
  }

  /** In a heap a run can reach, a root's count is the number of arrays that point at it, plus
      one if Ruby code can see the root; the buffers allocated are those in use, and an
      array's buffer is among them. */
  lemma Counts(h: Heap, vars: seq<RArray>, r: RArray)
    requires Program(h, vars) && r in h.arrays && r.st.Root?
    ensures r.st.num == |set a | a in h.arrays && a.st.PointsTo(r)| + (if r.hidden then 0 else 1)
    ensures forall a :: a in h.arrays && !a.st.Embedded? ==> a.st.buf in h.live
    ensures forall b :: b in h.live ==> exists a :: a in h.arrays && a.st.OwnsHeap() && a.st.buf == b
  {
    var m := h.Snap();
    assert CellOk(m, r, null);
    assert Sharers(m, r) == set a | a in h.arrays && a.st.PointsTo(r);
    forall b | b in h.live
      ensures exists a :: a in h.arrays && a.st.OwnsHeap() && a.st.buf == b
    {
      var a: RArray :| a in m && m[a].st.OwnsHeap() && m[a].st.buf == b;
    }
    forall a | a in h.arrays && !a.st.Embedded?
      ensures a.st.buf in h.live
    {
      h.Facts(a);
    }
  }
}

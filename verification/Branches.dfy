/**
 * Conditional branches in compile.c: from a tree of conditions to labelled instructions, and
 * from those to a sequence of words with relative offsets.
 */
module Branches {
  datatype Option<T> = None | Some(value: T)

  //----------------------------------------------------------------------------
  // Instructions

  /** What a register can hold, as far as a branch can tell. */
  datatype Value = Nil | False | Truth

  datatype Kind = Bt | Bf | Bnil

  /** `Test` stands for the instructions that compare and branch: their destination is the
      second operand.  `Compute` stands for the code of an opaque condition. */
  datatype Insn =
    | Goto(dest: nat)
    | Branch(kind: Kind, dest: nat, op: int)
    | Test(cmp: nat, cont: int, dest: nat, args: seq<int>)
    | Compute(cond: nat, reg: int)
  {
    /** `branch_insn_p`. */
    predicate IsBranch() { !Compute? }

    function WithDest(l: nat): (n: Insn)
      requires IsBranch()
      ensures n.IsBranch() && n.dest == l
    {
      match this
      case Goto(_) => Goto(l)
      case Branch(k, _, x) => Branch(k, l, x)
      case Test(c, x, _, args) => Test(c, x, l, args)
    }
  }

  datatype Element = I(insn: Insn) | Label(id: nat) | Blank

  type Code = seq<Element>

  /** A label is an element of the list, so it stands in one place. */
  ghost predicate Unique(code: Code)
  {
    forall i, j :: 0 <= i < j < |code| && code[i].Label? && code[j].Label? ==> code[i].id != code[j].id
  }

  /** Where a label stands; the length of the list if it is not there. */
  function Find(code: Code, l: nat): (i: nat)
    ensures i <= |code| && (i < |code| ==> code[i] == Label(l))
  {
    if code == [] then 0 else if code[0] == Label(l) then 0 else 1 + Find(code[1..], l)
  }

  lemma {:induction false} FindAt(code: Code, i: nat)
    requires Unique(code) && i < |code| && code[i].Label?
    ensures Find(code, code[i].id) == i
  {
    if i > 0 {
      assert code[0].Label? ==> code[0].id != code[i].id;
      var rest := code[1..];
      assert Unique(rest) by {
        forall a, b | 0 <= a < b < |rest| && rest[a].Label? && rest[b].Label?
          ensures rest[a].id != rest[b].id
        {
          assert code[a + 1].id != code[b + 1].id;
        }
      }
      FindAt(rest, i - 1);
    }
  }

  //----------------------------------------------------------------------------
  // Running labelled code

  /** The k-th evaluation of a condition or test gives oracle(k); `trace` records which ones
      were evaluated. */
  datatype State = State(pc: nat, regs: map<int, Value>, k: nat, trace: seq<nat>)

  function Get(regs: map<int, Value>, r: int): Value { if r in regs then regs[r] else Nil }

  predicate Taken(k: Kind, v: Value)
  {
    match k
    case Bt => v == Truth
    case Bf => v != Truth
    case Bnil => v == Nil
  }

  function Jump(code: Code, s: State, l: nat): Option<State>
  {
    if Find(code, l) < |code| then Some(s.(pc := Find(code, l))) else None
  }

  /** One step; nothing after the end of the list, and nowhere to go without a label. */
  function Step(code: Code, oracle: nat -> Value, s: State): Option<State>
  {
    if s.pc >= |code| then None else
    match code[s.pc]
    case Label(_) => Some(s.(pc := s.pc + 1))
    case Blank => Some(s.(pc := s.pc + 1))
    case I(Goto(l)) => Jump(code, s, l)
    case I(Branch(k, l, x)) => if Taken(k, Get(s.regs, x)) then Jump(code, s, l) else Some(s.(pc := s.pc + 1))
    case I(Test(c, _, l, _)) =>
      var s1 := s.(k := s.k + 1, trace := s.trace + [c]);
      if oracle(s.k) == Truth then Jump(code, s1, l) else Some(s1.(pc := s.pc + 1))
    case I(Compute(c, r)) =>
      Some(State(s.pc + 1, s.regs[r := oracle(s.k)], s.k + 1, s.trace + [c]))
  }

  function Run(code: Code, oracle: nat -> Value, s: State, n: nat): Option<State>
    decreases n
  {
    if n == 0 then Some(s) else
    match Step(code, oracle, s)
    case None => None
    case Some(t) => Run(code, oracle, t, n - 1)
  }

  lemma {:induction false} RunTwice(code: Code, oracle: nat -> Value, s: State, m: nat, n: nat)
    ensures Run(code, oracle, s, m + n) ==
            match Run(code, oracle, s, m) case None => None case Some(t) => Run(code, oracle, t, n)
    decreases m
  {
    if m > 0 && Step(code, oracle, s).Some? {
      RunTwice(code, oracle, Step(code, oracle, s).value, m - 1, n);
    }
  }

  //----------------------------------------------------------------------------
  // Conditions

  datatype Tree =
    | And(left: Tree, right: Tree)
    | Or(left: Tree, right: Tree)
    | Always
    | Never
    | Cond(id: nat, reg: int)

  /** Short-circuit evaluation: the value, and the conditions evaluated, in order. */
  function Eval(t: Tree, oracle: nat -> Value, k: nat): (bool, seq<nat>)
  {
    match t
    case Always => (true, [])
    case Never => (false, [])
    case Cond(c, _) => (oracle(k) == Truth, [c])
    case And(l, r) =>
      var (v, tr) := Eval(l, oracle, k);
      if !v then (false, tr) else var (w, ur) := Eval(r, oracle, k + |tr|); (w, tr + ur)
    case Or(l, r) =>
      var (v, tr) := Eval(l, oracle, k);
      if v then (true, tr) else var (w, ur) := Eval(r, oracle, k + |tr|); (w, tr + ur)
  }

  /** The code of a tree, with the number of the next unused label. */
  function Compile(t: Tree, then_: nat, else_: nat, next: nat): (Code, nat)
  {
    match t
    case And(l, r) =>
      var (c, n) := Compile(l, next, else_, next + 1);
      var (d, m) := Compile(r, then_, else_, n);
      (c + [Label(next)] + d, m)
    case Or(l, r) =>
      var (c, n) := Compile(l, then_, next, next + 1);
      var (d, m) := Compile(r, then_, else_, n);
      (c + [Label(next)] + d, m)
    case Always => ([I(Goto(then_))], next)
    case Never => ([I(Goto(else_))], next)
    case Cond(c, r) => ([I(Compute(c, r)), I(Branch(Bf, else_, r)), I(Goto(then_))], next)
  }

  /** The instruction list under construction. */
  class Iseq {
    var elems: Code
    var nextLabel: nat

    constructor ()
      ensures elems == [] && nextLabel == 0 && Valid()
    {
      elems, nextLabel := [], 0;
    }

    /** The labels in the list are distinct and have been handed out. */
    ghost predicate Valid()
      reads this
    {
      Unique(elems) && LabelsIn(elems, 0, nextLabel)
    }

    /** `NEW_LABEL`. */
    method NewLabel() returns (l: nat)
      modifies this`nextLabel
      ensures l == old(nextLabel) && nextLabel == l + 1
    {
      l := nextLabel;
      nextLabel := nextLabel + 1;
    }

    /** `compile_branch_condition`. */
    method CompileBranchCondition(t: Tree, then_: nat, else_: nat)
      modifies this
      ensures var (c, n) := Compile(t, then_, else_, old(nextLabel)); elems == old(elems) + c && nextLabel == n
      ensures old(Valid()) ==> Valid()
      decreases t
    {
      hide Unique, LabelsIn;
      CompileLabels(t, then_, else_, nextLabel);
      AppendLabels(elems, Compile(t, then_, else_, nextLabel).0, nextLabel, Compile(t, then_, else_, nextLabel).1);
      ghost var e := elems;
      match t {
        case And(l, r) =>
          var label_ := NewLabel();
          CompileBranchCondition(l, label_, else_);
          ghost var c := Compile(l, label_, else_, label_ + 1);
          elems := elems + [Label(label_)];
          CompileBranchCondition(r, then_, else_);
          Joined(e, c.0, label_, Compile(r, then_, else_, c.1).0);
        case Or(l, r) =>
          var label_ := NewLabel();
          CompileBranchCondition(l, then_, label_);
          ghost var c := Compile(l, then_, label_, label_ + 1);
          elems := elems + [Label(label_)];
          CompileBranchCondition(r, then_, else_);
          Joined(e, c.0, label_, Compile(r, then_, else_, c.1).0);
        case Always =>
          elems := elems + [I(Goto(then_))];
        case Never =>
          elems := elems + [I(Goto(else_))];
        case Cond(c, r) =>
          elems := elems + [I(Compute(c, r))];
          elems := elems + [I(Branch(Bf, else_, r))];
          elems := elems + [I(Goto(then_))];
          assert elems == e + [I(Compute(c, r)), I(Branch(Bf, else_, r)), I(Goto(then_))];
      }
    }
  }

  lemma Joined(e: Code, c: Code, l: nat, d: Code)
    ensures e + c + [Label(l)] + d == e + (c + [Label(l)] + d)
  {}

  //----------------------------------------------------------------------------
  // The code of a tree does what the tree says

  ghost predicate Within(code: Code, i: nat, c: Code) { i + |c| <= |code| && code[i..i + |c|] == c }

  lemma WithinParts(code: Code, i: nat, c: Code, l: nat, d: Code)
    requires Within(code, i, c + [Label(l)] + d)
    ensures Within(code, i, c) && i + |c| < |code| && code[i + |c|] == Label(l) && Within(code, i + |c| + 1, d)
  {
    var all := c + [Label(l)] + d;
    assert code[i..i + |c|] == all[..|c|] == c;
    assert code[i + |c|] == all[|c|];
    assert code[i + |c| + 1..i + |all|] == all[|c| + 1..] == d;
  }

  /** The first n states are inside lo .. hi. */
  ghost predicate Inside(code: Code, oracle: nat -> Value, s: State, n: nat, lo: nat, hi: nat)
    decreases n
  {
    n == 0 || (lo <= s.pc < hi && Step(code, oracle, s).Some?
               && Inside(code, oracle, Step(code, oracle, s).value, n - 1, lo, hi))
  }

  /** Control gets from s to t and stays inside lo .. hi until it is there. */
  ghost predicate Reaches(code: Code, oracle: nat -> Value, s: State, t: State, lo: nat, hi: nat)
  {
    exists n :: Inside(code, oracle, s, n, lo, hi) && Run(code, oracle, s, n) == Some(t)
  }

  lemma {:induction false} InsideTwice(code: Code, oracle: nat -> Value, s: State, m: nat, n: nat, lo: nat, hi: nat)
    requires Inside(code, oracle, s, m, lo, hi) && Run(code, oracle, s, m).Some?
    requires Inside(code, oracle, Run(code, oracle, s, m).value, n, lo, hi)
    ensures Inside(code, oracle, s, m + n, lo, hi)
    decreases m
  {
    if m > 0 { InsideTwice(code, oracle, Step(code, oracle, s).value, m - 1, n, lo, hi); }
  }

  lemma {:induction false} InsideWider(code: Code, oracle: nat -> Value, s: State, n: nat, lo: nat, hi: nat,
                                       lo': nat, hi': nat)
    requires Inside(code, oracle, s, n, lo, hi) && lo' <= lo && hi <= hi'
    ensures Inside(code, oracle, s, n, lo', hi')
    decreases n
  {
    if n > 0 { InsideWider(code, oracle, Step(code, oracle, s).value, n - 1, lo, hi, lo', hi'); }
  }

  lemma ReachesTwice(code: Code, oracle: nat -> Value, s: State, t: State, u: State, lo: nat, hi: nat)
    requires Reaches(code, oracle, s, t, lo, hi) && Reaches(code, oracle, t, u, lo, hi)
    ensures Reaches(code, oracle, s, u, lo, hi)
  {
    var m :| Inside(code, oracle, s, m, lo, hi) && Run(code, oracle, s, m) == Some(t);
    var n :| Inside(code, oracle, t, n, lo, hi) && Run(code, oracle, t, n) == Some(u);
    RunTwice(code, oracle, s, m, n);
    InsideTwice(code, oracle, s, m, n, lo, hi);
  }

  lemma ReachesWider(code: Code, oracle: nat -> Value, s: State, t: State, lo: nat, hi: nat, lo': nat, hi': nat)
    requires Reaches(code, oracle, s, t, lo, hi) && lo' <= lo && hi <= hi'
    ensures Reaches(code, oracle, s, t, lo', hi')
  {
    var m :| Inside(code, oracle, s, m, lo, hi) && Run(code, oracle, s, m) == Some(t);
    InsideWider(code, oracle, s, m, lo, hi, lo', hi');
  }

  lemma ReachesStep(code: Code, oracle: nat -> Value, s: State, lo: nat, hi: nat)
    requires Step(code, oracle, s).Some? && lo <= s.pc < hi
    ensures Reaches(code, oracle, s, Step(code, oracle, s).value, lo, hi)
  {
    var t := Step(code, oracle, s).value;
    assert Inside(code, oracle, t, 0, lo, hi) && Run(code, oracle, t, 0) == Some(t);
    assert Inside(code, oracle, s, 1, lo, hi) && Run(code, oracle, s, 1) == Some(t);
  }

  lemma SkipLabel(code: Code, oracle: nat -> Value, s: State, lo: nat, hi: nat)
    requires s.pc < |code| && code[s.pc].Label? && lo <= s.pc < hi
    ensures Reaches(code, oracle, s, s.(pc := s.pc + 1), lo, hi)
  {
    ReachesStep(code, oracle, s, lo, hi);
  }

  /** In any list that contains it, control stays in the code until it goes to the label for
      true or the label for false, as the tree says, and the conditions are evaluated in
      short-circuit order. */
  lemma {:induction false} CompileCorrect(t: Tree, then_: nat, else_: nat, next: nat, code: Code,
                                          oracle: nat -> Value, s: State)
    returns (e: State)
    requires Unique(code) && Within(code, s.pc, Compile(t, then_, else_, next).0)
    requires Find(code, then_) < |code| && Find(code, else_) < |code|
    ensures Reaches(code, oracle, s, e, s.pc, s.pc + |Compile(t, then_, else_, next).0|)
    ensures var (v, tr) := Eval(t, oracle, s.k);
            e.pc == Find(code, if v then then_ else else_) && e.k == s.k + |tr| && e.trace == s.trace + tr
    decreases t, 1
  {
    match t {
      case And(l, r) =>
        e := CompileBoth(t, next, else_, then_, else_, next, code, oracle, s);
      case Or(l, r) =>
        e := CompileBoth(t, then_, next, then_, else_, next, code, oracle, s);
      case Always =>
        e := CompileGoto(then_, code, oracle, s);
      case Never =>
        e := CompileGoto(else_, code, oracle, s);
      case Cond(c, r) =>
        e := CompileCond(c, r, then_, else_, code, oracle, s);
    }
  }

  lemma CompileGoto(l: nat, code: Code, oracle: nat -> Value, s: State) returns (e: State)
    requires Within(code, s.pc, [I(Goto(l))]) && Find(code, l) < |code|
    ensures Reaches(code, oracle, s, e, s.pc, s.pc + 1) && e == s.(pc := Find(code, l))
  {
    assert code[s.pc] == code[s.pc..s.pc + 1][0] == I(Goto(l));
    e := s.(pc := Find(code, l));
    ReachesStep(code, oracle, s, s.pc, s.pc + 1);
  }

  lemma CompileCond(c: nat, r: int, then_: nat, else_: nat, code: Code, oracle: nat -> Value, s: State)
    returns (e: State)
    requires Within(code, s.pc, [I(Compute(c, r)), I(Branch(Bf, else_, r)), I(Goto(then_))])
    requires Find(code, then_) < |code| && Find(code, else_) < |code|
    ensures Reaches(code, oracle, s, e, s.pc, s.pc + 3)
    ensures e.pc == Find(code, if oracle(s.k) == Truth then then_ else else_) && e.k == s.k + 1
            && e.trace == s.trace + [c]
  {
    var part, lo, hi := code[s.pc..s.pc + 3], s.pc, s.pc + 3;
    assert code[s.pc] == part[0] && code[s.pc + 1] == part[1] && code[s.pc + 2] == part[2];
    var s1 := State(s.pc + 1, s.regs[r := oracle(s.k)], s.k + 1, s.trace + [c]);
    ReachesStep(code, oracle, s, lo, hi);
    ReachesStep(code, oracle, s1, lo, hi);
    if oracle(s.k) == Truth {
      var s2 := s1.(pc := s.pc + 2);
      ReachesStep(code, oracle, s2, lo, hi);
      e := s2.(pc := Find(code, then_));
      ReachesTwice(code, oracle, s1, s2, e, lo, hi);
    } else {
      e := s1.(pc := Find(code, else_));
    }
    ReachesTwice(code, oracle, s, s1, e, lo, hi);
  }

  /** Two conditions in a row; the second is evaluated if the first one came out true, for
      "and", or false, for "or". */
  lemma {:induction false} CompileBoth(t: Tree, lthen: nat, lelse: nat, then_: nat, else_: nat, next: nat, code: Code,
                                       oracle: nat -> Value, s: State) returns (e: State)
    requires Unique(code) && (t.And? || t.Or?)
    requires if t.And? then lthen == next && lelse == else_ else lthen == then_ && lelse == next
    requires var (c, n) := Compile(t.left, lthen, lelse, next + 1);
             Within(code, s.pc, c + [Label(next)] + Compile(t.right, then_, else_, n).0)
    requires Find(code, then_) < |code| && Find(code, else_) < |code|
    ensures var (c, n) := Compile(t.left, lthen, lelse, next + 1);
            Reaches(code, oracle, s, e, s.pc, s.pc + |c + [Label(next)] + Compile(t.right, then_, else_, n).0|)
    ensures var (v, tr) := Eval(t, oracle, s.k);
            e.pc == Find(code, if v then then_ else else_) && e.k == s.k + |tr| && e.trace == s.trace + tr
    decreases t, 0
  {
    hide Step, Run, Reaches, Unique, Within, Compile, Find;
    var (c, n) := Compile(t.left, lthen, lelse, next + 1);
    var d := Compile(t.right, then_, else_, n).0;
    var lo, mid, hi := s.pc, s.pc + |c|, s.pc + |c| + 1 + |d|;
    WithinParts(code, s.pc, c, next, d);
    FindAt(code, mid);
    var e1 := CompileCorrect(t.left, lthen, lelse, next + 1, code, oracle, s);
    ReachesWider(code, oracle, s, e1, lo, mid, lo, hi);
    if Eval(t.left, oracle, s.k).0 == t.And? {
      var e2 := e1.(pc := e1.pc + 1);
      SkipLabel(code, oracle, e1, lo, hi);
      e := CompileCorrect(t.right, then_, else_, n, code, oracle, e2);
      ReachesWider(code, oracle, e2, e, mid + 1, hi, lo, hi);
      ReachesTwice(code, oracle, e1, e2, e, lo, hi);
      ReachesTwice(code, oracle, s, e1, e, lo, hi);
    } else {
      e := e1;
    }
  }

  //----------------------------------------------------------------------------
  // The labels of the code are new ones

  ghost predicate LabelsIn(c: Code, lo: nat, hi: nat) { forall i :: 0 <= i < |c| && c[i].Label? ==> lo <= c[i].id < hi }

  lemma UniqueJoin(c: Code, d: Code)
    requires Unique(c) && Unique(d)
    requires forall i, j :: 0 <= i < |c| && 0 <= j < |d| && c[i].Label? && d[j].Label? ==> c[i].id != d[j].id
    ensures Unique(c + d)
  {}

  lemma AppendLabels(e: Code, c: Code, next: nat, n: nat)
    requires Unique(c) && LabelsIn(c, next, n) && next <= n
    ensures Unique(e) && LabelsIn(e, 0, next) ==> Unique(e + c) && LabelsIn(e + c, 0, n)
  {}

  lemma {:induction false} CompileLabels(t: Tree, then_: nat, else_: nat, next: nat)
    ensures var (c, n) := Compile(t, then_, else_, next); next <= n && Unique(c) && LabelsIn(c, next, n)
    decreases t, 1
  {
    match t {
      case And(l, r) => CompileLabelsBoth(t, next, else_, then_, else_, next);
      case Or(l, r) => CompileLabelsBoth(t, then_, next, then_, else_, next);
      case _ =>
    }
  }

  lemma {:induction false} CompileLabelsBoth(t: Tree, lthen: nat, lelse: nat, then_: nat, else_: nat, next: nat)
    requires t.And? || t.Or?
    ensures var (c, n) := Compile(t.left, lthen, lelse, next + 1);
            var (d, m) := Compile(t.right, then_, else_, n);
            var all := c + [Label(next)] + d;
            next <= m && Unique(all) && LabelsIn(all, next, m)
    decreases t, 0
  {
    var (c, n) := Compile(t.left, lthen, lelse, next + 1);
    var (d, m) := Compile(t.right, then_, else_, n);
    CompileLabels(t.left, lthen, lelse, next + 1);
    CompileLabels(t.right, then_, else_, n);
    UniqueJoin(c, [Label(next)]);
    UniqueJoin(c + [Label(next)], d);
  }
}

/**
 * Branch threading in `iseq_peephole_optimize`: a branch to a goto, or to a branch on the
 * same operand with the same sense, is made to go where that one goes.
 */
module Threading {
  import opened Branches
  import opened Sequence

  /** The first instruction at or behind an element; the length of the list if there is none. */
  function NextInsn(code: Code, i: nat): (d: nat)
    requires i <= |code|
    ensures i <= d <= |code| && (d < |code| ==> code[d].I?) && forall j :: i <= j < d ==> !code[j].I?
    decreases |code| - i
  {
    if i == |code| || code[i].I? then i else NextInsn(code, i + 1)
  }

  /** `get_destination_insn`: the first instruction behind the label. */
  function Destination(code: Code, l: nat): (d: nat)
    ensures d <= |code| && (d < |code| ==> code[d].I? && Find(code, l) < d)
    ensures forall j :: Find(code, l) < j < d ==> !code[j].I?
  {
    if Find(code, l) < |code| then NextInsn(code, Find(code, l) + 1) else |code|
  }

  /** The destination is one that can be skipped. */
  predicate Skips(b: Insn, d: Insn)
  {
    d.Goto? || (b.Branch? && d.Branch? && b.kind == d.kind && b.op == d.op)
  }

  /** Where the label of branch i may be replaced by another one, that one. */
  function Next(code: Code, i: nat, l: nat): nat
    requires i < |code| && code[i].I?
  {
    var d := Destination(code, l);
    if d < |code| && d != i && Skips(code[i].insn, code[d].insn) then code[d].insn.dest else l
  }

  function Chain(code: Code, i: nat, l: nat, n: nat): nat
    requires i < |code| && code[i].I?
    decreases n
  {
    if n == 0 then l else Chain(code, i, Next(code, i, l), n - 1)
  }

  lemma {:induction false} ChainEnd(code: Code, i: nat, l: nat, n: nat)
    requires i < |code| && code[i].I?
    ensures Chain(code, i, l, n + 1) == Next(code, i, Chain(code, i, l, n))
    decreases n
  {
    if n > 0 { ChainEnd(code, i, Next(code, i, l), n - 1); }
  }

  ghost predicate AllKnown(code: Code) { forall i :: 0 <= i < |code| ==> Known(code, code[i]) }

  //----------------------------------------------------------------------------
  // The loop

  function Retarget(code: Code, i: nat, l: nat): (c: Code)
    requires i < |code| && code[i].I? && code[i].insn.IsBranch()
    ensures |c| == |code|
  {
    code[i := I(code[i].insn.WithDest(l))]
  }

  lemma {:induction false} RetargetFind(code: Code, c: Code, l: nat)
    requires |code| == |c| && forall j :: 0 <= j < |code| ==> code[j] == c[j] || (code[j].I? && c[j].I?)
    ensures Find(c, l) == Find(code, l)
    decreases |code|
  {
    if code != [] {
      assert code[0] == c[0] || (code[0].I? && c[0].I?);
      RetargetFind(code[1..], c[1..], l);
    }
  }

  lemma {:induction false} RetargetNext(code: Code, c: Code, i: nat)
    requires |code| == |c| && (forall j :: 0 <= j < |code| ==> code[j].I? == c[j].I?) && i <= |code|
    ensures NextInsn(c, i) == NextInsn(code, i)
    decreases |code| - i
  {
    if i < |code| && !code[i].I? { RetargetNext(code, c, i + 1); }
  }

  lemma RetargetSame(code: Code, i: nat, l: nat, x: nat)
    requires i < |code| && code[i].I? && code[i].insn.IsBranch()
    ensures var c := Retarget(code, i, l); Find(c, x) == Find(code, x) && Destination(c, x) == Destination(code, x)
  {
    var c := Retarget(code, i, l);
    RetargetFind(code, c, x);
    if Find(code, x) < |code| { RetargetNext(code, c, Find(code, x) + 1); }
  }

  ghost function Unmarked(check: seq<nat>, pass: nat): set<nat>
  {
    set j | 0 <= j < |check| && check[j] != pass
  }

  /** The list with the marks of the threading passes. */
  class Peephole {
    var elems: Code
    var check: seq<nat>
    var pass: nat

    ghost predicate Valid()
      reads this
    {
      |check| == |elems| && AllKnown(elems) && forall j :: 0 <= j < |check| ==> check[j] <= pass
    }

    constructor (code: Code)
      requires AllKnown(code)
      ensures Valid() && elems == code
    {
      elems, check, pass := code, seq(|code|, _ => 0), 0;
    }

    /** The threading loop for one branch: it follows the chain up to the first place that cannot
        be skipped or was come to before.  The marks end it also where gotos go in circles. */
    method Thread(i: nat) returns (ghost n: nat)
      requires Valid() && i < |elems| && elems[i].I? && elems[i].insn.IsBranch()
      modifies this
      ensures Valid() && elems == Retarget(old(elems), i, Chain(old(elems), i, old(elems)[i].insn.dest, n))
      ensures Stops(old(elems), i, old(elems)[i].insn.dest, n)
      ensures forall m :: 0 <= m < n ==> !Stops(old(elems), i, old(elems)[i].insn.dest, m)
    {
      hide Find, NextInsn, Unmarked, AllKnown, Destination, Next, Skips, Insn.WithDest, Stops, MarksAre;
      ghost var code, l := elems, elems[i].insn.dest;
      n := 0;
      DestKnown(code, i);
      RetargetNothing(code, i);
      pass := pass + 1;
      NoMarks(code, i, l, check, pass);
      while true
        invariant |check| == |elems| && forall j :: 0 <= j < |check| ==> check[j] <= pass
        invariant AllKnown(code) && i < |code| && code[i].I? && code[i].insn.IsBranch()
                  && Find(code, Chain(code, i, l, n)) < |code|
        invariant elems == Retarget(code, i, Chain(code, i, l, n))
        invariant MarksAre(code, i, l, n, check, pass) && forall m :: 0 <= m < n ==> !Stops(code, i, l, m)
        decreases Unmarked(check, pass)
      {
        ghost var c := check;
        var d := Destination(elems, elems[i].insn.dest);
        StopTest(code, i, l, n, check, pass);
        if d == |elems| || check[d] == pass { break; }
        check := check[d := pass];
        Marked(c, d, pass);
        if !Skips(elems[i].insn, elems[d].insn) { break; }
        MarkOne(code, i, l, n, c, pass, d);
        ThreadStep(code, i, l, n);
        elems := Retarget(elems, i, elems[d].insn.dest);
        n := n + 1;
      }
      RetargetKnown(code, i, Chain(code, i, l, n));
    }

    /** The loop of `iseq_optimize` over the list: every branch is threaded, in order. */
    method ThreadAll() returns (ghost codes: seq<Code>)
      requires Valid()
      modifies this
      ensures Valid() && History(codes) && codes[0] == old(elems) && codes[|codes| - 1] == elems
    {
      hide AllKnown, Stops;
      codes := [elems];
      for i := 0 to |elems|
        invariant Valid() && |elems| == |old(elems)| && History(codes) && codes[0] == old(elems)
                  && codes[|codes| - 1] == elems
      {
        if elems[i].I? && elems[i].insn.IsBranch() {
          ghost var code := elems;
          ghost var n := Thread(i);
          assert Threaded(code, elems, i, n);
          HistoryGrows(codes, elems, i, n);
          codes := codes + [elems];
        }
      }
    }
  }

  /** Where the chain is after n steps. */
  function Visited(code: Code, i: nat, l: nat, n: nat): (d: nat)
    requires i < |code| && code[i].I?
    ensures d <= |code| && (d < |code| ==> code[d].I?)
  {
    Destination(code, Chain(code, i, l, n))
  }

  /** There is nothing there, or something else, or it was there before. */
  ghost predicate Stops(code: Code, i: nat, l: nat, n: nat)
    requires i < |code| && code[i].I?
  {
    var d := Visited(code, i, l, n);
    d == |code| || !Skips(code[i].insn, code[d].insn) || exists m :: 0 <= m < n && Visited(code, i, l, m) == d
  }

  /** The marks of a pass are on the places visited. */
  ghost predicate MarksAre(code: Code, i: nat, l: nat, n: nat, check: seq<nat>, pass: nat)
    requires i < |code| && code[i].I?
  {
    |check| == |code| && forall j :: 0 <= j < |check| ==>
      (check[j] == pass <==> exists m :: 0 <= m < n && Visited(code, i, l, m) == j)
  }

  lemma NoMarks(code: Code, i: nat, l: nat, check: seq<nat>, pass: nat)
    requires i < |code| && code[i].I? && |check| == |code| && forall j :: 0 <= j < |check| ==> check[j] < pass
    ensures MarksAre(code, i, l, 0, check, pass)
  {}

  lemma MarkOne(code: Code, i: nat, l: nat, n: nat, check: seq<nat>, pass: nat, d: nat)
    requires i < |code| && code[i].I? && MarksAre(code, i, l, n, check, pass) && d == Visited(code, i, l, n) < |code|
    ensures MarksAre(code, i, l, n + 1, check[d := pass], pass)
  {
    hide Chain, Destination;
    var c := check[d := pass];
    forall j | 0 <= j < |c|
      ensures c[j] == pass <==> exists m :: 0 <= m < n + 1 && Visited(code, i, l, m) == j
    {
      if j == d {
        assert 0 <= n < n + 1 && Visited(code, i, l, n) == j;
      } else if c[j] == pass {
        var m :| 0 <= m < n && Visited(code, i, l, m) == j;
        assert 0 <= m < n + 1;
      }
    }
  }

  /** The test of the loop. */
  lemma StopTest(code: Code, i: nat, l: nat, n: nat, check: seq<nat>, pass: nat)
    requires i < |code| && code[i].I? && code[i].insn.IsBranch() && MarksAre(code, i, l, n, check, pass)
    ensures var e := Retarget(code, i, Chain(code, i, l, n));
            var d := Destination(e, e[i].insn.dest);
            && d == Visited(code, i, l, n)
            && (Stops(code, i, l, n) <==> d == |code| || check[d] == pass || !Skips(e[i].insn, e[d].insn))
  {
    hide Find, NextInsn, Destination;
    var x := Chain(code, i, l, n);
    RetargetSame(code, i, x, x);
  }

  lemma RetargetNothing(code: Code, i: nat)
    requires i < |code| && code[i].I? && code[i].insn.IsBranch()
    ensures Retarget(code, i, code[i].insn.dest) == code
  {}

  /** One more step of the chain. */
  lemma ThreadStep(code: Code, i: nat, l: nat, n: nat)
    requires AllKnown(code) && i < |code| && code[i].I? && code[i].insn.IsBranch()
    requires var e := Retarget(code, i, Chain(code, i, l, n));
             var d := Destination(e, e[i].insn.dest);
             d < |e| && Skips(e[i].insn, e[d].insn)
    requires Find(code, Chain(code, i, l, n)) < |code|
    ensures var e := Retarget(code, i, Chain(code, i, l, n));
            var d := Destination(e, e[i].insn.dest);
            && e[d].insn.IsBranch() && Retarget(e, i, e[d].insn.dest) == Retarget(code, i, Chain(code, i, l, n + 1))
            && Find(code, Chain(code, i, l, n + 1)) < |code|
  {
    hide Find, NextInsn;
    var x := Chain(code, i, l, n);
    RetargetSame(code, i, x, x);
    var d := Destination(code, x);
    ChainEnd(code, i, l, n);
    DestKnown(code, d);
  }

  lemma Marked(check: seq<nat>, d: nat, pass: nat)
    requires d < |check| && check[d] != pass
    ensures Unmarked(check[d := pass], pass) < Unmarked(check, pass)
  {
    assert d in Unmarked(check, pass) && d !in Unmarked(check[d := pass], pass);
  }

  lemma DestKnown(code: Code, d: nat)
    requires AllKnown(code) && d < |code| && code[d].I? && code[d].insn.IsBranch()
    ensures Find(code, code[d].insn.dest) < |code|
  {
    assert Known(code, code[d]);
  }

  lemma RetargetKnown(code: Code, i: nat, l: nat)
    requires AllKnown(code) && i < |code| && code[i].I? && code[i].insn.IsBranch() && Find(code, l) < |code|
    ensures AllKnown(Retarget(code, i, l))
  {
    var c := Retarget(code, i, l);
    forall j | 0 <= j < |c|
      ensures Known(c, c[j])
    {
      assert Known(code, code[j]);
      if c[j].I? && c[j].insn.IsBranch() { RetargetSame(code, i, l, c[j].insn.dest); }
    }
  }

  //----------------------------------------------------------------------------
  // What threading keeps

  /** The branch is taken in this state, without looking at anything new. */
  predicate Goes(b: Insn, s: State)
  {
    b.Goto? || b.Test? || (b.Branch? && Taken(b.kind, Get(s.regs, b.op)))
  }

  /** Labels and blanks are passed. */
  lemma {:induction false} PassBlanks(code: Code, oracle: nat -> Value, s: State) returns (n: nat)
    requires s.pc <= |code|
    ensures Run(code, oracle, s, n) == Some(s.(pc := NextInsn(code, s.pc)))
    decreases |code| - s.pc
  {
    if s.pc == |code| || code[s.pc].I? {
      n := 0;
    } else {
      var k := PassBlanks(code, oracle, s.(pc := s.pc + 1));
      n := k + 1;
    }
  }

  /** From the label, control comes by itself to the next label of the chain. */
  lemma NextReached(code: Code, i: nat, l: nat, oracle: nat -> Value, s: State) returns (n: nat)
    requires AllKnown(code) && i < |code| && code[i].I? && code[i].insn.IsBranch() && Goes(code[i].insn, s)
    requires s.pc == Find(code, l) < |code|
    ensures Find(code, Next(code, i, l)) < |code|
            && Run(code, oracle, s, n) == Some(s.(pc := Find(code, Next(code, i, l))))
  {
    n := 0;
    var d := Destination(code, l);
    if d < |code| && d != i && Skips(code[i].insn, code[d].insn) {
      DestKnown(code, d);
      var k := PassBlanks(code, oracle, s);
      assert NextInsn(code, s.pc) == d;
      var t := s.(pc := d);
      RunOne(code, oracle, t);
      RunTwice(code, oracle, s, k, 1);
      n := k + 1;
    }
  }

  lemma RunOne(code: Code, oracle: nat -> Value, s: State)
    ensures Run(code, oracle, s, 1) == Step(code, oracle, s)
  {
    if Step(code, oracle, s).Some? {
      assert Run(code, oracle, Step(code, oracle, s).value, 0) == Step(code, oracle, s);
    }
  }

  lemma {:induction false} ChainReached(code: Code, i: nat, l: nat, k: nat, oracle: nat -> Value, s: State)
    returns (n: nat)
    requires AllKnown(code) && i < |code| && code[i].I? && code[i].insn.IsBranch() && Goes(code[i].insn, s)
    requires s.pc == Find(code, l) < |code|
    ensures Find(code, Chain(code, i, l, k)) < |code|
            && Run(code, oracle, s, n) == Some(s.(pc := Find(code, Chain(code, i, l, k))))
    decreases k
  {
    n := 0;
    if k > 0 {
      var a := NextReached(code, i, l, oracle, s);
      var x := Next(code, i, l);
      var b := ChainReached(code, i, x, k - 1, oracle, s.(pc := Find(code, x)));
      RunTwice(code, oracle, s, a, b);
      n := a + b;
    }
  }

  ghost predicate Threaded(code: Code, c: Code, i: nat, k: nat)
  {
    && AllKnown(code) && i < |code| && code[i].I? && code[i].insn.IsBranch()
    && c == Retarget(code, i, Chain(code, i, code[i].insn.dest, k))
  }

  lemma JumpSame(code: Code, c: Code, i: nat, k: nat, s: State, l: nat)
    requires Threaded(code, c, i, k)
    ensures Jump(c, s, l) == Jump(code, s, l)
  {
    RetargetSame(code, i, Chain(code, i, code[i].insn.dest, k), l);
  }

  /** A step of the threaded code is one or more steps of the code; where one is stuck so is
      the other. */
  lemma StepThreaded(code: Code, c: Code, i: nat, k: nat, oracle: nat -> Value, s: State) returns (n: nat)
    requires Threaded(code, c, i, k)
    ensures Step(c, oracle, s).None? == Step(code, oracle, s).None?
    ensures Step(c, oracle, s).Some? ==> 0 < n && Run(code, oracle, s, n) == Step(c, oracle, s)
  {
    n := 1;
    RunOne(code, oracle, s);
    if s.pc == i {
      var b := code[i].insn;
      DestKnown(code, i);
      var l, x := b.dest, Chain(code, i, b.dest, k);
      var t := if b.Test? then s.(k := s.k + 1, trace := s.trace + [b.cmp]) else s;
      var u := t.(pc := Find(code, l));
      JumpSame(code, c, i, k, t, x);
      if Goes(b, s) && (b.Test? ==> oracle(s.k) == Truth) {
        var m := ChainReached(code, i, l, k, oracle, u);
        assert Step(code, oracle, s) == Some(u);
        RunTwice(code, oracle, s, 1, m);
        n := 1 + m;
      }
    } else if s.pc < |code| && code[s.pc].I? && code[s.pc].insn.IsBranch() {
      var b := code[s.pc].insn;
      JumpSame(code, c, i, k, s, b.dest);
      if b.Test? { JumpSame(code, c, i, k, s.(k := s.k + 1, trace := s.trace + [b.cmp]), b.dest); }
    }
  }

  /** Wherever the threaded code gets, the code gets. */
  lemma {:induction false} ThreadSound(code: Code, c: Code, i: nat, k: nat, oracle: nat -> Value, s: State, n: nat)
    returns (m: nat)
    requires Threaded(code, c, i, k) && Run(c, oracle, s, n).Some?
    ensures n <= m && Run(code, oracle, s, m) == Run(c, oracle, s, n)
    decreases n
  {
    hide Threaded, Step;
    m := 0;
    if n > 0 {
      var a := StepThreaded(code, c, i, k, oracle, s);
      var b := ThreadSound(code, c, i, k, oracle, Step(c, oracle, s).value, n - 1);
      RunTwice(code, oracle, s, a, b);
      m := a + b;
    }
  }

  /** Where the code comes to an end, the threaded code comes to the same end, in no more
      steps. */
  lemma {:induction false} ThreadComplete(code: Code, c: Code, i: nat, k: nat, oracle: nat -> Value, s: State, n: nat)
    returns (m: nat)
    requires Threaded(code, c, i, k) && Run(code, oracle, s, n).Some?
             && Step(code, oracle, Run(code, oracle, s, n).value).None?
    ensures m <= n && Run(c, oracle, s, m) == Run(code, oracle, s, n)
    decreases n
  {
    hide Threaded, Step;
    m := 0;
    var a := StepThreaded(code, c, i, k, oracle, s);
    if Step(code, oracle, s).Some? {
      var t := Step(c, oracle, s).value;
      if n < a {
        // the end would have a successor
        RunTwice(code, oracle, s, n, a - n);
      } else {
        RunTwice(code, oracle, s, a, n - a);
        var b := ThreadComplete(code, c, i, k, oracle, t, n - a);
        m := b + 1;
      }
    }
  }

  //----------------------------------------------------------------------------
  // Any number of threadings, and the words

  ghost predicate ThreadsTo(code: Code, c: Code) { exists i: nat, k: nat :: Threaded(code, c, i, k) }

  /** The lists one after the other, each with one more branch threaded. */
  ghost predicate History(codes: seq<Code>)
  {
    codes != [] && forall j :: 0 <= j < |codes| - 1 ==> ThreadsTo(codes[j], codes[j + 1])
  }

  lemma HistoryGrows(codes: seq<Code>, c: Code, i: nat, k: nat)
    requires History(codes) && Threaded(codes[|codes| - 1], c, i, k)
    ensures History(codes + [c])
  {
    hide Threaded;
    assert ThreadsTo(codes[|codes| - 1], c);
  }

  lemma HistoryFirst(codes: seq<Code>) returns (i: nat, k: nat)
    requires History(codes) && |codes| > 1
    ensures Threaded(codes[0], codes[1], i, k) && History(codes[1..]) && codes[1..][0] == codes[1]
  {
    hide Threaded;
    assert ThreadsTo(codes[0], codes[0 + 1]);
    i, k :| Threaded(codes[0], codes[1], i, k);
    forall j | 0 <= j < |codes[1..]| - 1
      ensures ThreadsTo(codes[1..][j], codes[1..][j + 1])
    {
      assert ThreadsTo(codes[j + 1], codes[j + 1 + 1]);
    }
  }

  /** Wherever the last list gets, the first one gets. */
  lemma {:induction false} HistorySound(codes: seq<Code>, oracle: nat -> Value, s: State, n: nat) returns (m: nat)
    requires History(codes) && Run(codes[|codes| - 1], oracle, s, n).Some?
    ensures n <= m && Run(codes[0], oracle, s, m) == Run(codes[|codes| - 1], oracle, s, n)
    decreases |codes|
  {
    m := n;
    if |codes| > 1 {
      var i, k := HistoryFirst(codes);
      hide Threaded, History, Run;
      var a := HistorySound(codes[1..], oracle, s, n);
      m := ThreadSound(codes[0], codes[1], i, k, oracle, s, a);
    }
  }

  /** Where the first list comes to an end, the last one comes to the same end. */
  lemma {:induction false} HistoryComplete(codes: seq<Code>, oracle: nat -> Value, s: State, n: nat) returns (m: nat)
    requires History(codes) && Run(codes[0], oracle, s, n).Some?
             && Step(codes[0], oracle, Run(codes[0], oracle, s, n).value).None?
    ensures m <= n && Run(codes[|codes| - 1], oracle, s, m) == Run(codes[0], oracle, s, n)
    decreases |codes|
  {
    m := n;
    if |codes| > 1 {
      var i, k := HistoryFirst(codes);
      hide Threaded, History, Run, Step;
      var e := Run(codes[0], oracle, s, n).value;
      var a := ThreadComplete(codes[0], codes[1], i, k, oracle, s, n);
      var x := StepThreaded(codes[0], codes[1], i, k, oracle, e);
      m := HistoryComplete(codes[1..], oracle, s, a);
    }
  }

  lemma {:induction false} ChainKnown(code: Code, i: nat, l: nat, k: nat)
    requires AllKnown(code) && i < |code| && code[i].I? && Find(code, l) < |code|
    ensures Find(code, Chain(code, i, l, k)) < |code|
    decreases k
  {
    hide Find, Destination;
    if k > 0 {
      var d := Destination(code, l);
      if d < |code| && d != i && Skips(code[i].insn, code[d].insn) { DestKnown(code, d); }
      ChainKnown(code, i, Next(code, i, l), k - 1);
    }
  }

  lemma ThreadedKeeps(code: Code, c: Code, i: nat, k: nat)
    requires Threaded(code, c, i, k) && Unique(code) && Encodable(code)
    ensures Unique(c) && Encodable(c) && |c| == |code|
  {
    DestKnown(code, i);
    var l := Chain(code, i, code[i].insn.dest, k);
    ChainKnown(code, i, code[i].insn.dest, k);
    RetargetKnown(code, i, l);
    hide Find, Chain;
    forall j | 0 <= j < |c|
      ensures Sized(c[j]) && Known(c, c[j])
    {
      assert Sized(code[j]);
    }
  }

  lemma {:induction false} HistoryKeeps(codes: seq<Code>)
    requires History(codes) && Unique(codes[0]) && Encodable(codes[0])
    ensures var c := codes[|codes| - 1]; Unique(c) && Encodable(c) && |c| == |codes[0]|
    decreases |codes|
  {
    if |codes| > 1 {
      var i, k := HistoryFirst(codes);
      hide Threaded, History, Unique, Encodable;
      ThreadedKeeps(codes[0], codes[1], i, k);
      HistoryKeeps(codes[1..]);
    }
  }

  /** Code with no unknown label ends behind its last element only. */
  lemma EndsBehind(code: Code, oracle: nat -> Value, s: State)
    requires Encodable(code) && Step(code, oracle, s).None?
    ensures |code| <= s.pc
  {
    assert s.pc < |code| ==> Known(code, code[s.pc]);
  }

  /** From the tree to the words of the threaded list.  If the code of a tree, with what
      follows its labels, comes to an end, it has passed the label the tree says with the
      conditions evaluated in short-circuit order; and the words that `iseq_set_sequence` makes
      of the list after any number of threadings come to the same end. */
  lemma OptimizedCorrect(t: Tree, then_: nat, else_: nat, next: nat, codes: seq<Code>, mem: seq<int>,
                         oracle: nat -> Value, s: State, n: nat)
    returns (f: State, a: nat, m: nat)
    requires History(codes) && Unique(codes[0]) && Encodable(codes[0]) && Encodes(mem, codes[|codes| - 1])
    requires Within(codes[0], s.pc, Compile(t, then_, else_, next).0) && Find(codes[0], then_) < |codes[0]|
             && Find(codes[0], else_) < |codes[0]|
    requires Run(codes[0], oracle, s, n).Some? && Step(codes[0], oracle, Run(codes[0], oracle, s, n).value).None?
    ensures a <= n && Run(codes[0], oracle, s, a) == Some(f)
    ensures var (v, tr) := Eval(t, oracle, s.k);
            f.pc == Find(codes[0], if v then then_ else else_) && f.k == s.k + |tr| && f.trace == s.trace + tr
    ensures var e := Run(codes[0], oracle, s, n).value;
            s.pc <= |codes[|codes| - 1]| && RunWords(mem, oracle, Placing(codes[|codes| - 1], s), m) ==
              Some(e.(pc := |mem|))
  {
    var code, c := codes[0], codes[|codes| - 1];
    var e := Run(code, oracle, s, n).value;
    HistoryKeeps(codes);
    EndsBehind(code, oracle, e);
    hide Encodable, Encodes, Unique, Find, RunWords, History, Step;
    f := CompileCorrect(t, then_, else_, next, code, oracle, s);
    a :| Run(code, oracle, s, a) == Some(f);
    NotBeyond(code, oracle, s, n, a);
    hide Run;
    var k := HistoryComplete(codes, oracle, s, n);
    m := RunEncoded(c, mem, oracle, s, k);
    EncodedLength(mem, c);
  }

  lemma EncodedLength(mem: seq<int>, c: Code)
    requires Encodes(mem, c)
    ensures |mem| == Pos(c, |c|)
  {}

  /** Nothing comes after the end. */
  lemma NotBeyond(code: Code, oracle: nat -> Value, s: State, n: nat, a: nat)
    requires Run(code, oracle, s, n).Some? && Step(code, oracle, Run(code, oracle, s, n).value).None?
             && Run(code, oracle, s, a).Some?
    ensures a <= n
  {
    if n < a { RunTwice(code, oracle, s, n, a - n); }
  }
}

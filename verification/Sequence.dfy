/**
 * `iseq_set_sequence`: labels become positions, branches relative offsets.
 */
module Sequence {
  import opened Branches

  //----------------------------------------------------------------------------
  // Positions

  /** `insn_len`; labels take no room. */
  function Len(e: Element): nat
  {
    match e
    case I(Goto(_)) => 2
    case I(Branch(_, _, _)) => 3
    case I(Test(_, _, _, _)) => 7
    case I(Compute(_, _)) => 3
    case Label(_) => 0
    case Blank => 0
  }

  function Pos(code: Code, i: nat): nat
    requires i <= |code|
  {
    if i == 0 then 0 else Pos(code, i - 1) + Len(code[i - 1])
  }

  lemma {:induction false} PosMonotone(code: Code, i: nat, j: nat)
    requires i <= j <= |code|
    ensures Pos(code, i) <= Pos(code, j)
  {
    if i < j { PosMonotone(code, i, j - 1); }
  }

  /** The operand count of an instruction is that of its opcode. */
  predicate Sized(e: Element) { e.I? && e.insn.Test? ==> |e.insn.args| == 4 }

  predicate Known(code: Code, e: Element) { e.I? && e.insn.IsBranch() ==> Find(code, e.insn.dest) < |code| }

  ghost predicate Encodable(code: Code)
  {
    forall i :: 0 <= i < |code| ==> Sized(code[i]) && Known(code, code[i])
  }

  function Opcode(n: Insn): nat
  {
    match n
    case Goto(_) => 0
    case Branch(Bt, _, _) => 1
    case Branch(Bf, _, _) => 2
    case Branch(Bnil, _, _) => 3
    case Compute(_, _) => 4
    case Test(c, _, _, _) => 5 + c
  }

  /** The words of an instruction, for an offset. */
  function Words(n: Insn, offset: int): seq<int>
  {
    match n
    case Goto(_) => [Opcode(n), offset]
    case Branch(_, _, x) => [Opcode(n), offset, x]
    case Test(_, cont, _, args) => [Opcode(n), cont, offset] + args
    case Compute(c, r) => [Opcode(n), c, r]
  }

  /** From behind the instruction to the position of its label. */
  function Offset(code: Code, i: nat): int
    requires i < |code|
  {
    if code[i].I? && code[i].insn.IsBranch() then
      Pos(code, Find(code, code[i].insn.dest)) - (Pos(code, i) + Len(code[i]))
    else 0
  }

  ghost predicate Placed(mem: seq<int>, code: Code, i: nat)
    requires i < |code|
  {
    code[i].I? ==> Pos(code, i) + Len(code[i]) <= |mem|
                   && mem[Pos(code, i)..Pos(code, i) + Len(code[i])] == Words(code[i].insn, Offset(code, i))
  }

  ghost predicate Encodes(mem: seq<int>, code: Code)
  {
    |mem| == Pos(code, |code|) && forall i :: 0 <= i < |code| ==> Placed(mem, code, i)
  }

  /** The positions of the labels among the first n elements. */
  ghost predicate Positions(code: Code, n: nat, positions: map<nat, nat>)
    requires n <= |code|
  {
    && (forall l :: l in positions <==> Find(code, l) < n)
    && (forall l :: l in positions ==> positions[l] == Pos(code, Find(code, l)))
  }

  /** The first pass. */
  method FixLabels(code: Code) returns (positions: map<nat, nat>, size: nat)
    requires Unique(code)
    ensures Positions(code, |code|, positions) && size == Pos(code, |code|)
  {
    positions, size := map[], 0;
    for i := 0 to |code|
      invariant Positions(code, i, positions) && size == Pos(code, i)
    {
      if code[i].Label? {
        FindAt(code, i);
        positions := positions[code[i].id := size];
      } else {
        size := size + Len(code[i]);
      }
    }
  }

  /** `iseq_set_sequence`; null stands for a compile error: a wrong operand count or an
      unknown label. */
  method SetSequence(code: Code) returns (out: array?<int>)
    requires Unique(code)
    ensures out == null <==> !Encodable(code)
    ensures out != null ==> fresh(out) && Encodes(out[..], code)
  {
    var positions, size := FixLabels(code);
    out := new int[size];
    var at := 0;
    for i := 0 to |code|
      invariant out != null && fresh(out) && out.Length == size && at == Pos(code, i)
      invariant forall j :: 0 <= j < i ==> Sized(code[j]) && Known(code, code[j])
      invariant forall j :: 0 <= j < i ==> Placed(out[..], code, j)
    {
      PosMonotone(code, i + 1, |code|);
      if code[i].I? {
        var n := code[i].insn;
        if !Sized(code[i]) || (n.IsBranch() && n.dest !in positions) {
          assert !Encodable(code);
          return null;
        }
        var ws := Words(n, if n.IsBranch() then positions[n.dest] - (at + Len(code[i])) else 0);
        WriteWords(out, at, ws, code, i);
        at := at + Len(code[i]);
      }
    }
  }

  lemma PlacedKept(mem: seq<int>, mem': seq<int>, code: Code, j: nat, at: nat)
    requires j < |code| && Placed(mem, code, j) && Pos(code, j) + Len(code[j]) <= at <= |mem| <= |mem'|
             && mem[..at] == mem'[..at]
    ensures Placed(mem', code, j)
  {
    hide Words, Offset;
    var a, b := Pos(code, j), Pos(code, j) + Len(code[j]);
    assert mem[a..b] == mem[..at][a..b] && mem'[a..b] == mem'[..at][a..b];
  }

  method StoreWords(out: array<int>, at: nat, ws: seq<int>)
    requires at + |ws| <= out.Length
    modifies out
    ensures out[..at] == old(out[..at]) && out[..][at..at + |ws|] == ws
  {
    forall j | 0 <= j < |ws| { out[at + j] := ws[j]; }
  }

  method WriteWords(out: array<int>, at: nat, ws: seq<int>, ghost code: Code, ghost i: nat)
    requires i < |code| && at == Pos(code, i) && at + |ws| <= out.Length && |ws| == Len(code[i])
    requires code[i].I? && ws == Words(code[i].insn, Offset(code, i))
    requires forall j :: 0 <= j < i ==> Placed(out[..], code, j)
    modifies out
    ensures forall j :: 0 <= j <= i ==> Placed(out[..], code, j)
  {
    hide Words, Offset;
    ghost var mem := out[..];
    StoreWords(out, at, ws);
    assert out[..][..at] == out[..at] && mem[..at] == old(out[..at]);
    forall j | 0 <= j < i
      ensures Placed(out[..], code, j)
    {
      PosMonotone(code, j + 1, i);
      PlacedKept(mem, out[..], code, j, at);
    }
  }

  //----------------------------------------------------------------------------
  // Running words

  function Move(mem: seq<int>, s: State, to: int): Option<State>
  {
    if 0 <= to <= |mem| then Some(s.(pc := to)) else None
  }

  /** One step of the machine: the offset counts from behind the instruction. */
  function StepWords(mem: seq<int>, oracle: nat -> Value, s: State): Option<State>
  {
    if s.pc >= |mem| then None else
    var op := mem[s.pc];
    if op == 0 && s.pc + 2 <= |mem| then Move(mem, s, s.pc + 2 + mem[s.pc + 1])
    else if 1 <= op <= 3 && s.pc + 3 <= |mem| then
      var k := if op == 1 then Bt else if op == 2 then Bf else Bnil;
      Move(mem, s, s.pc + 3 + if Taken(k, Get(s.regs, mem[s.pc + 2])) then mem[s.pc + 1] else 0)
    else if op == 4 && s.pc + 3 <= |mem| && mem[s.pc + 1] >= 0 then
      Some(State(s.pc + 3, s.regs[mem[s.pc + 2] := oracle(s.k)], s.k + 1, s.trace + [mem[s.pc + 1]]))
    else if op >= 5 && s.pc + 7 <= |mem| then
      var s1 := s.(k := s.k + 1, trace := s.trace + [op - 5]);
      Move(mem, s1, s.pc + 7 + if oracle(s.k) == Truth then mem[s.pc + 2] else 0)
    else None
  }

  function RunWords(mem: seq<int>, oracle: nat -> Value, s: State, n: nat): Option<State>
    decreases n
  {
    if n == 0 then Some(s) else
    match StepWords(mem, oracle, s)
    case None => None
    case Some(t) => RunWords(mem, oracle, t, n - 1)
  }

  /** The same state, with the position instead of the index. */
  function Placing(code: Code, s: State): State
    requires s.pc <= |code|
  {
    s.(pc := Pos(code, s.pc))
  }

  /** What the words of an instruction make the machine do. */
  lemma StepWordsAt(mem: seq<int>, n: Insn, offset: int, oracle: nat -> Value, s: State)
    requires |Words(n, offset)| == Len(I(n)) && s.pc + Len(I(n)) <= |mem|
             && mem[s.pc..s.pc + Len(I(n))] == Words(n, offset)
    ensures StepWords(mem, oracle, s) ==
            match n
            case Goto(_) => Move(mem, s, s.pc + 2 + offset)
            case Branch(k, _, x) => Move(mem, s, s.pc + 3 + if Taken(k, Get(s.regs, x)) then offset else 0)
            case Test(c, _, _, _) =>
              Move(mem, s.(k := s.k + 1, trace := s.trace + [c]), s.pc + 7 + if oracle(s.k) == Truth then offset else 0)
            case Compute(c, r) => Some(State(s.pc + 3, s.regs[r := oracle(s.k)], s.k + 1, s.trace + [c]))
  {
    var ws := Words(n, offset);
    WordAt(mem, s.pc, ws, 0);
    WordAt(mem, s.pc, ws, 1);
    if !n.Goto? { WordAt(mem, s.pc, ws, 2); }
  }

  /** A step of the labelled code is a step of the words, or none at a label. */
  lemma StepEncoded(code: Code, mem: seq<int>, oracle: nat -> Value, s: State)
    requires Unique(code) && Encodable(code) && Encodes(mem, code) && s.pc < |code| && Step(code, oracle, s).Some?
    ensures var t := Step(code, oracle, s).value;
            && t.pc <= |code|
            && if code[s.pc].I? then StepWords(mem, oracle, Placing(code, s)) == Some(Placing(code, t))
            else Placing(code, s) == Placing(code, t)
  {
    hide StepWords, Find, Unique, Words;
    var t := Step(code, oracle, s).value;
    PosMonotone(code, s.pc + 1, |code|);
    PosMonotone(code, t.pc, |code|);
    assert Placed(mem, code, s.pc) && Sized(code[s.pc]) && Known(code, code[s.pc]);
    if code[s.pc].I? {
      WordsLen(code[s.pc].insn, Offset(code, s.pc));
      StepWordsAt(mem, code[s.pc].insn, Offset(code, s.pc), oracle, Placing(code, s));
    }
  }

  lemma WordsLen(n: Insn, offset: int)
    ensures Sized(I(n)) ==> |Words(n, offset)| == Len(I(n))
  {}

  lemma WordAt(mem: seq<int>, p: nat, ws: seq<int>, j: nat)
    requires p + |ws| <= |mem| && mem[p..p + |ws|] == ws && j < |ws|
    ensures mem[p + j] == ws[j]
  {
    assert mem[p..p + |ws|][j] == mem[p + j];
  }

  lemma {:induction false} RunEncoded(code: Code, mem: seq<int>, oracle: nat -> Value, s: State, n: nat)
    returns (m: nat)
    requires Unique(code) && Encodable(code) && Encodes(mem, code) && s.pc <= |code| && Run(code, oracle, s, n).Some?
    ensures var t := Run(code, oracle, s, n).value;
            t.pc <= |code| && RunWords(mem, oracle, Placing(code, s), m) == Some(Placing(code, t))
    decreases n
  {
    hide Unique, Encodable, Encodes, Find, StepWords;
    if n == 0 {
      m := 0;
    } else {
      StepEncoded(code, mem, oracle, s);
      m := RunEncoded(code, mem, oracle, Step(code, oracle, s).value, n - 1);
      if code[s.pc].I? { m := m + 1; }
    }
  }

  /** From the tree to the words: started at the position of the code of a tree, the machine
      gets to the position of the label for true if the tree is true, and to the other one if
      it is false, and evaluates the conditions in short-circuit order. */
  lemma BranchCorrect(t: Tree, then_: nat, else_: nat, next: nat, code: Code, mem: seq<int>,
                      oracle: nat -> Value, s: State)
    returns (e: State, m: nat)
    requires Unique(code) && Encodable(code) && Encodes(mem, code)
             && Within(code, s.pc, Compile(t, then_, else_, next).0)
    requires Find(code, then_) < |code| && Find(code, else_) < |code|
    ensures RunWords(mem, oracle, Placing(code, s), m) == Some(e)
    ensures var (v, tr) := Eval(t, oracle, s.k);
            e.pc == Pos(code, Find(code, if v then then_ else else_)) && e.k == s.k + |tr| && e.trace == s.trace + tr
  {
    hide Encodable, Encodes, Unique, Find, RunWords, Run;
    var f := CompileCorrect(t, then_, else_, next, code, oracle, s);
    var n :| Run(code, oracle, s, n) == Some(f);
    m := RunEncoded(code, mem, oracle, s, n);
    e := Placing(code, f);
  }
}

/** The GHAST: the structured AST that the decompiler restructures and prints.
    A program state is the history of the effects performed so far, and a `World`
    answers every question a program can ask as a function of that history, so
    two programs with equal final histories produced the same trace. */
module Ghast {

  /** A basic block reduced to what the passes can see of it: whether it contains
      a statement with side effects, and its number of instructions. A block
      without side effects prints nothing. */
  datatype Block = Block(id: nat, effects: bool, size: nat)

  /** How a code node leaves its block: through a branch, a return instruction, or
      an unreachable that directly follows a call to a `noreturn` function. */
  datatype BlockEnd = Jumps | Returns | CallsNoReturn

  datatype Comparison = Equal(rhs: nat) | NotEqual(rhs: nat) | NotPresent

  datatype Expr =
    | ValueCompare(bb: Block, cmp: Comparison)
    | LoopStateCompare(cmp: Comparison)
    | Atomic(bb: Block)
    | Not(e: Expr)
    | And(l: Expr, r: Expr)
    | Or(l: Expr, r: Expr)

  /** The part of an `IfNode` that loops and continues refer to. The statements
      of a weaved condition have already been printed by an enclosing node;
      `origin` is the block that the `IfNode` was created for. */
  datatype Condition = Condition(expr: Expr, weaved: bool, origin: Block)

  datatype LoopKind = WhileTrue | While(related: Condition) | DoWhile(related: Condition)

  datatype Scrutinee = OfValue(bb: Block, weaved: bool) | OfLoopState

  /** A case without labels is the default. */
  datatype Case = Case(labels: seq<nat>, body: Ast)

  /** `Null` stands for a null child pointer. */
  datatype Ast =
    | Null
    | Code(bb: Block, end: BlockEnd, implicitReturn: bool)
    | If(cond: Condition, thn: Ast, els: Ast)
    | Scs(kind: LoopKind, body: Ast)
    | Seq(nodes: seq<Ast>)
    | Switch(on: Scrutinee, cases: seq<Case>, needsVar: bool, needsDispatcher: bool)
    | SwitchBreak
    | Set(value: nat)
    | Continue(computation: Computation, implicit: bool)
    | Break(fromSwitch: bool)

  datatype Computation = NoComputation | Computes(cond: Condition)

  // ----- Histories and worlds -----

  datatype Event = Ran(block: nat) | SetState(value: nat)

  type History = seq<Event>

  /** `test` reads the branch condition of a block, `value` its switch operand. */
  datatype World = World(test: (nat, History) -> bool, value: (nat, History) -> nat)

  function RunBlock(b: Block, h: History): History {
    if b.effects then h + [Ran(b.id)] else h
  }

  /** The current value of the loop state variable. */
  function LoopState(h: History): nat {
    if h == [] then 0
    else if h[|h| - 1].SetState? then h[|h| - 1].value
    else LoopState(h[..|h| - 1])
  }

  function Compare(cmp: Comparison, lhs: nat): bool {
    match cmp
    case Equal(rhs) => lhs == rhs
    case NotEqual(rhs) => lhs != rhs
    case NotPresent => lhs != 0
  }

  /** The blocks whose statements are printed in front of a test of `e`. */
  function Blocks(e: Expr): seq<Block> {
    match e
    case ValueCompare(bb, _) => [bb]
    case LoopStateCompare(_) => []
    case Atomic(bb) => [bb]
    case Not(n) => Blocks(n)
    case And(l, r) => Blocks(l) + Blocks(r)
    case Or(l, r) => Blocks(l) + Blocks(r)
  }

  function RunBlocks(bs: seq<Block>, h: History): History {
    if bs == [] then h else RunBlocks(bs[1..], RunBlock(bs[0], h))
  }

  /** Evaluating a condition runs the blocks of all its operands eagerly; the
      operators only combine values that have already been computed. */
  function RunCondition(c: Condition, h: History): History {
    if c.weaved then h else RunBlocks(Blocks(c.expr), h)
  }

  function Test(w: World, e: Expr, h: History): bool {
    match e
    case ValueCompare(bb, cmp) => Compare(cmp, w.value(bb.id, h))
    case LoopStateCompare(cmp) => Compare(cmp, LoopState(h))
    case Atomic(bb) => w.test(bb.id, h)
    case Not(n) => !Test(w, n, h)
    case And(l, r) => Test(w, l, h) && Test(w, r, h)
    case Or(l, r) => Test(w, l, h) || Test(w, r, h)
  }

  function RunScrutinee(on: Scrutinee, h: History): History {
    match on
    case OfValue(bb, weaved) => if weaved then h else RunBlock(bb, h)
    case OfLoopState => h
  }

  function ScrutineeValue(w: World, on: Scrutinee, h: History): nat {
    match on
    case OfValue(bb, _) => w.value(bb.id, h)
    case OfLoopState => LoopState(h)
  }

  // ----- Semantics -----

  datatype Outcome =
    | Fell
    | BrokeLoop
    | BrokeSwitch
    | Continued
    | Returned(block: nat)
    | Halted
    | OutOfFuel

  datatype Res = Res(out: Outcome, h: History)

  /** The index of the case taken on `v`, or `|cases|` when there is none. */
  function SelectCase(cases: seq<Case>, v: nat): (k: nat)
    ensures k <= |cases|
  {
    var k := LabelledCase(cases, v);
    if k < |cases| then k else DefaultCase(cases)
  }

  function LabelledCase(cases: seq<Case>, v: nat): (k: nat)
    ensures k <= |cases|
    ensures k < |cases| ==> v in cases[k].labels
    ensures forall i :: 0 <= i < k ==> v !in cases[i].labels
  {
    if cases == [] then 0
    else if v in cases[0].labels then 0
    else 1 + LabelledCase(cases[1..], v)
  }

  function DefaultCase(cases: seq<Case>): (k: nat)
    ensures k <= |cases|
    ensures k < |cases| ==> cases[k].labels == []
    ensures forall i :: 0 <= i < k ==> cases[i].labels != []
  {
    if cases == [] then 0
    else if cases[0].labels == [] then 0
    else 1 + DefaultCase(cases[1..])
  }

  function LeaveSwitch(r: Res): Res {
    if r.out.BrokeSwitch? then Res(Fell, r.h) else r
  }

  function RunComputation(c: Computation, h: History): History {
    match c
    case NoComputation => h
    case Computes(cond) => RunCondition(cond, h)
  }

  /** Runs `a` after history `h`, allowing at most `fuel` nested or successive
      loop heads. A loop break leaves the innermost loop through any nest of
      switches; an implicit continue or return lets control fall out of the node. */
  function Exec(w: World, fuel: nat, a: Ast, h: History): Res
    decreases fuel, a, 0
  {
    match a
    case Null => Res(Fell, h)
    case Code(bb, end, implicitReturn) =>
      var h1 := RunBlock(bb, h);
      (match end
       case Jumps => Res(Fell, h1)
       case Returns => if implicitReturn then Res(Fell, h1) else Res(Returned(bb.id), h1)
       case CallsNoReturn => Res(Halted, h1))
    case If(cond, thn, els) =>
      var h1 := RunCondition(cond, h);
      if Test(w, cond.expr, h1) then Exec(w, fuel, thn, h1) else Exec(w, fuel, els, h1)
    case Scs(kind, body) =>
      Loop(w, fuel, kind, body, if kind.While? then RunCondition(kind.related, h) else h)
    case Seq(nodes) => ExecSeq(w, fuel, nodes, h)
    case Switch(on, cases, _, _) =>
      var h1 := RunScrutinee(on, h);
      var k := SelectCase(cases, ScrutineeValue(w, on, h1));
      if k < |cases| then LeaveSwitch(Exec(w, fuel, cases[k].body, h1)) else Res(Fell, h1)
    case SwitchBreak => Res(BrokeSwitch, h)
    case Set(value) => Res(Fell, h + [SetState(value)])
    case Continue(computation, implicit) =>
      var h1 := RunComputation(computation, h);
      Res(if implicit then Fell else Continued, h1)
    case Break(_) => Res(BrokeLoop, h)
  }

  function ExecSeq(w: World, fuel: nat, nodes: seq<Ast>, h: History): Res
    decreases fuel, nodes, 0
  {
    if nodes == [] then Res(Fell, h)
    else
      var r := Exec(w, fuel, nodes[0], h);
      if r.out.Fell? then ExecSeq(w, fuel, nodes[1..], r.h) else r
  }

  datatype Step = Again(h: History) | Stop(res: Res)

  /** What a loop does after one execution of its body. A do-while loop computes
      its condition at the end of the body, which a continue jumps over. */
  function AfterBody(w: World, kind: LoopKind, r: Res): Step {
    match r.out
    case Fell =>
      if kind.DoWhile? then
        var h1 := RunCondition(kind.related, r.h);
        if Test(w, kind.related.expr, h1) then Again(h1) else Stop(Res(Fell, h1))
      else Again(r.h)
    case Continued =>
      if kind.DoWhile? && !Test(w, kind.related.expr, r.h) then Stop(Res(Fell, r.h)) else Again(r.h)
    case BrokeLoop => Stop(Res(Fell, r.h))
    case _ => Stop(r)
  }

  /** One visit of the loop head. A while loop tests what was computed before it. */
  function Loop(w: World, fuel: nat, kind: LoopKind, body: Ast, h: History): Res
    decreases fuel, body, 1
  {
    if fuel == 0 then Res(OutOfFuel, h)
    else if kind.While? && !Test(w, kind.related.expr, h) then Res(Fell, h)
    else
      match AfterBody(w, kind, Exec(w, fuel - 1, body, h))
      case Again(h1) => Loop(w, fuel - 1, kind, body, h1)
      case Stop(res) => res
  }

  // ----- Where jumps may occur -----

  /** Every loop jump has a loop to bind to, and every switch break a switch that
      is nested in the same loop as itself; `switches` counts the switches
      entered since the innermost loop. These are the conditions that the break
      fixer asserts. */
  predicate Placed(a: Ast, inLoop: bool, switches: nat) {
    match a
    case If(_, thn, els) => Placed(thn, inLoop, switches) && Placed(els, inLoop, switches)
    case Scs(_, body) => Placed(body, true, 0)
    case Seq(nodes) => forall i :: 0 <= i < |nodes| ==> Placed(nodes[i], inLoop, switches)
    case Switch(_, cases, _, _) =>
      forall i :: 0 <= i < |cases| ==> Placed(cases[i].body, inLoop, switches + 1)
    case SwitchBreak => switches > 0
    case Continue(_, _) => inLoop
    case Break(_) => inLoop
    case _ => true
  }

  /** The number of nodes of `a`: nodes are numbered in preorder, so the subtree
      rooted at label `k` owns the labels from `k` up to `k + Size(a)`. */
  function Size(a: Ast): nat {
    match a
    case Null => 0
    case If(_, thn, els) => 1 + Size(thn) + Size(els)
    case Scs(_, body) => 1 + Size(body)
    case Seq(nodes) => 1 + SizeSeq(nodes)
    case Switch(_, cases, _, _) => 1 + SizeCases(cases)
    case _ => 1
  }

  function SizeSeq(nodes: seq<Ast>): nat {
    if nodes == [] then 0 else Size(nodes[0]) + SizeSeq(nodes[1..])
  }

  function SizeCases(cases: seq<Case>): nat {
    if cases == [] then 0 else Size(cases[0].body) + SizeCases(cases[1..])
  }

  // ----- Semantic equality -----

  /** `a` and `b` give the same outcome and the same trace in world `w`, at every fuel. */
  ghost predicate Equivalent(w: World, a: Ast, b: Ast) {
    forall fuel: nat, h: History :: Exec(w, fuel, a, h) == Exec(w, fuel, b, h)
  }

  /** Equivalent children can be exchanged below every kind of node. */
  lemma IfCongruence(w: World, cond: Condition, t: Ast, t': Ast, e: Ast, e': Ast)
    requires Equivalent(w, t, t') && Equivalent(w, e, e')
    ensures Equivalent(w, If(cond, t, e), If(cond, t', e'))
  {
  }

  lemma {:induction false} SeqCongruence(w: World, s: seq<Ast>, s': seq<Ast>)
    requires |s| == |s'|
    requires forall i :: 0 <= i < |s| ==> Equivalent(w, s[i], s'[i])
    ensures Equivalent(w, Seq(s), Seq(s'))
  {
    if s != [] {
      SeqCongruence(w, s[1..], s'[1..]);
      assert Equivalent(w, s[0], s'[0]);
      forall fuel: nat, h: History
        ensures ExecSeq(w, fuel, s, h) == ExecSeq(w, fuel, s', h)
      {
        var r := Exec(w, fuel, s[0], h);
        assert r == Exec(w, fuel, s'[0], h);
        assert Exec(w, fuel, Seq(s[1..]), r.h) == Exec(w, fuel, Seq(s'[1..]), r.h);
      }
    }
  }

  lemma {:induction false} LoopCongruence(w: World, fuel: nat, kind: LoopKind, body: Ast, body': Ast, h: History)
    requires Equivalent(w, body, body')
    ensures Loop(w, fuel, kind, body, h) == Loop(w, fuel, kind, body', h)
    decreases fuel
  {
    if fuel > 0 {
      var r := Exec(w, fuel - 1, body, h);
      assert r == Exec(w, fuel - 1, body', h);
      var step := AfterBody(w, kind, r);
      if step.Again? {
        LoopCongruence(w, fuel - 1, kind, body, body', step.h);
      }
    }
  }

  lemma {:induction false} ScsCongruence(w: World, kind: LoopKind, body: Ast, body': Ast)
    requires Equivalent(w, body, body')
    ensures Equivalent(w, Scs(kind, body), Scs(kind, body'))
  {
    forall fuel: nat, h: History
      ensures Exec(w, fuel, Scs(kind, body), h) == Exec(w, fuel, Scs(kind, body'), h)
    {
      LoopCongruence(w, fuel, kind, body, body', if kind.While? then RunCondition(kind.related, h) else h);
    }
  }

  lemma {:induction false} SelectDependsOnLabels(c: seq<Case>, c': seq<Case>, v: nat)
    requires |c| == |c'|
    requires forall i :: 0 <= i < |c| ==> c[i].labels == c'[i].labels
    ensures LabelledCase(c, v) == LabelledCase(c', v) && DefaultCase(c) == DefaultCase(c')
    ensures SelectCase(c, v) == SelectCase(c', v)
  {
    if c != [] {
      SelectDependsOnLabels(c[1..], c'[1..], v);
    }
  }

  lemma {:induction false} SwitchCongruence(w: World, on: Scrutinee, c: seq<Case>, c': seq<Case>,
                                            v: bool, d: bool, v': bool, d': bool)
    requires |c| == |c'|
    requires forall i :: 0 <= i < |c| ==> c[i].labels == c'[i].labels && Equivalent(w, c[i].body, c'[i].body)
    ensures Equivalent(w, Switch(on, c, v, d), Switch(on, c', v', d'))
  {
    forall fuel: nat, h: History
      ensures Exec(w, fuel, Switch(on, c, v, d), h) == Exec(w, fuel, Switch(on, c', v', d'), h)
    {
      var h1 := RunScrutinee(on, h);
      SelectDependsOnLabels(c, c', ScrutineeValue(w, on, h1));
    }
  }

  lemma {:induction false} ExecSeqAppend(w: World, fuel: nat, s: seq<Ast>, t: seq<Ast>, h: History)
    ensures ExecSeq(w, fuel, s + t, h)
         == var r := ExecSeq(w, fuel, s, h);
            if r.out.Fell? then ExecSeq(w, fuel, t, r.h) else r
    decreases |s|
  {
    if s == [] {
      assert s + t == t;
    } else {
      assert (s + t)[0] == s[0] && (s + t)[1..] == s[1..] + t;
      ExecSeqAppend(w, fuel, s[1..], t, Exec(w, fuel, s[0], h).h);
    }
  }
}

/** Printing the GHAST as C. The printer keeps a stack of switch state variables
    and a counter for fresh names; the break fixer tells it where a loop break
    has to travel out of switches. */
module Emission {
  import opened Ghast
  import opened CLang

  // ----- The break fixer, as a function on trees -----

  /** Some loop break inside `a` leaves a loop that encloses `a`. */
  predicate BreaksLoop(a: Ast) {
    match a
    case If(_, thn, els) => BreaksLoop(thn) || BreaksLoop(els)
    case Seq(nodes) => exists i :: 0 <= i < |nodes| && BreaksLoop(nodes[i])
    case Switch(_, cases, _, _) => exists i :: 0 <= i < |cases| && BreaksLoop(cases[i].body)
    case Break(_) => true
    case _ => false
  }

  /** The tree with its break flags set; `switches` counts the switches entered
      since the innermost loop. */
  function Fix(a: Ast, inLoop: bool, switches: nat): Ast {
    match a
    case If(cond, thn, els) => If(cond, Fix(thn, inLoop, switches), Fix(els, inLoop, switches))
    case Scs(kind, body) => Scs(kind, Fix(body, true, 0))
    case Seq(nodes) => Seq(FixSeq(nodes, inLoop, switches))
    case Switch(on, cases, _, _) =>
      var crosses := inLoop && BreaksLoop(a);
      Switch(on, FixCases(cases, inLoop, switches), crosses && switches == 0, crosses)
    case Break(_) => Break(switches > 0)
    case _ => a
  }

  function FixSeq(nodes: seq<Ast>, inLoop: bool, switches: nat): (r: seq<Ast>)
    ensures |r| == |nodes|
    ensures forall i :: 0 <= i < |r| ==> r[i] == Fix(nodes[i], inLoop, switches)
  {
    if nodes == [] then [] else [Fix(nodes[0], inLoop, switches)] + FixSeq(nodes[1..], inLoop, switches)
  }

  /** The cases of a switch that is itself inside `switches` other ones. */
  function FixCases(cases: seq<Case>, inLoop: bool, switches: nat): (r: seq<Case>)
    ensures |r| == |cases|
    ensures forall i :: 0 <= i < |r| ==>
      r[i].labels == cases[i].labels && r[i].body == Fix(cases[i].body, inLoop, switches + 1)
  {
    if cases == [] then []
    else [Case(cases[0].labels, Fix(cases[0].body, inLoop, switches + 1))] + FixCases(cases[1..], inLoop, switches)
  }

  // ----- The printer, as a function on trees -----

  /** The variables to declare in front of each node, by preorder label. */
  type Declarations = map<nat, seq<nat>>

  datatype Emitted = Emitted(code: seq<CStmt>, next: nat)

  datatype EmittedGroups = EmittedGroups(groups: seq<Group>, next: nat)

  function Declare(names: seq<nat>): seq<CStmt> {
    if names == [] then [] else [CDeclare(names[0])] + Declare(names[1..])
  }

  function DeclareAt(decls: Declarations, k: nat): seq<CStmt> {
    if k in decls then Declare(decls[k]) else []
  }

  function RunAll(bs: seq<Block>): seq<CStmt> {
    if bs == [] then [] else [CRun(bs[0], Jumps)] + RunAll(bs[1..])
  }

  function EmitCondition(c: Condition): seq<CStmt> {
    if c.weaved then [] else RunAll(Blocks(c.expr))
  }

  function EmitScrutinee(on: Scrutinee): seq<CStmt> {
    if on.OfValue? && !on.weaved then [CRun(on.bb, Jumps)] else []
  }

  /** The variable on top of the stack; the printer never reads an empty stack. */
  function Top(vars: seq<nat>): nat {
    if vars == [] then 0 else vars[|vars| - 1]
  }

  function Emit(a: Ast, k: nat, decls: Declarations, vars: seq<nat>, next: nat): (e: Emitted)
    ensures e.next >= next
    decreases a, 1
  {
    if a.Null? then Emitted([], next)
    else
      var e := EmitNode(a, k, decls, vars, next);
      Emitted(DeclareAt(decls, k) + e.code, e.next)
  }

  function EmitNode(a: Ast, k: nat, decls: Declarations, vars: seq<nat>, next: nat): (e: Emitted)
    ensures e.next >= next
    decreases a, 0
  {
    match a
    case Null => Emitted([], next)
    case Code(bb, end, implicitReturn) =>
      Emitted([CRun(bb, if end.Returns? && implicitReturn then Jumps else end)], next)
    case If(cond, thn, els) =>
      var t := Emit(thn, k + 1, decls, vars, next);
      var e := Emit(els, k + 1 + Size(thn), decls, vars, t.next);
      var elseBranch := if els.Null? then NoElse else Else(CCompound(e.code));
      Emitted(EmitCondition(cond) + [CIf(OfGhast(cond.expr), CCompound(t.code), elseBranch)], e.next)
    case Scs(kind, body) =>
      var b := Emit(body, k + 1, decls, vars, next);
      (match kind
       case WhileTrue => Emitted([CWhile(TrueLiteral, CCompound(b.code))], b.next)
       case While(c) => Emitted(EmitCondition(c) + [CWhile(OfGhast(c.expr), CCompound(b.code))], b.next)
       case DoWhile(c) => Emitted([CDoWhile(CCompound(b.code + EmitCondition(c)), OfGhast(c.expr))], b.next))
    case Seq(nodes) => EmitSeq(nodes, k + 1, decls, vars, next)
    case Switch(on, cases, needsVar, needsDispatcher) =>
      var vars1 := if needsVar then vars + [next] else vars;
      var declared := if needsVar then [CDeclareFalse(next)] else [];
      var labelled := EmitCases(cases, k + 1, decls, vars1, if needsVar then next + 1 else next);
      var default := EmitDefault(cases, k + 1, decls, vars1, labelled.next);
      var dispatch := if needsDispatcher then [CIf(StateVar(Top(vars1)), CBreak, NoElse)] else [];
      Emitted(declared + EmitScrutinee(on) + [CSwitch(on, labelled.groups + default.groups)] + dispatch, default.next)
    case SwitchBreak => Emitted([CBreak], next)
    case Set(value) => Emitted([CSetState(value)], next)
    case Continue(computation, implicit) =>
      var before := if computation.Computes? then EmitCondition(computation.cond) else [];
      Emitted(before + if implicit then [] else [CContinue], next)
    case Break(fromSwitch) =>
      Emitted((if fromSwitch then [CAssignTrue(Top(vars))] else []) + [CBreak], next)
  }

  function EmitSeq(nodes: seq<Ast>, k: nat, decls: Declarations, vars: seq<nat>, next: nat): (e: Emitted)
    ensures e.next >= next
    decreases nodes, 0
  {
    if nodes == [] then Emitted([], next)
    else
      var first := Emit(nodes[0], k, decls, vars, next);
      var rest := EmitSeq(nodes[1..], k + Size(nodes[0]), decls, vars, first.next);
      Emitted(first.code + rest.code, rest.next)
  }

  /** The labelled cases, in order; a default case is printed last. */
  function EmitCases(cases: seq<Case>, k: nat, decls: Declarations, vars: seq<nat>, next: nat): (e: EmittedGroups)
    ensures e.next >= next
    decreases cases, 0
  {
    if cases == [] then EmittedGroups([], next)
    else if cases[0].labels == [] then EmitCases(cases[1..], k + Size(cases[0].body), decls, vars, next)
    else
      var first := Emit(cases[0].body, k, decls, vars, next);
      var rest := EmitCases(cases[1..], k + Size(cases[0].body), decls, vars, first.next);
      EmittedGroups([Group(cases[0].labels, false, [CCompound(first.code), CBreak])] + rest.groups, rest.next)
  }

  function EmitDefault(cases: seq<Case>, k: nat, decls: Declarations, vars: seq<nat>, next: nat): (e: EmittedGroups)
    ensures e.next >= next
    decreases cases, 0
  {
    if cases == [] then EmittedGroups([], next)
    else if cases[0].labels == [] then
      var body := Emit(cases[0].body, k, decls, vars, next);
      EmittedGroups([Group([], true, [CCompound(body.code), CBreak])], body.next)
    else EmitDefault(cases[1..], k + Size(cases[0].body), decls, vars, next)
  }
}

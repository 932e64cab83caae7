/** From the tree to the text and back: what the printer appends to its output reads
    back, by the grammar of C, as a program that behaves like the tree. */
module PrintedFunction {
  import opened Ghast
  import opened CLang
  import opened Emission
  import opened CTokens
  import opened Preservation
  import opened CodeGenerator

  predicate AllPrintable(stmts: seq<CStmt>) {
    forall i :: 0 <= i < |stmts| ==> Printable(stmts[i])
  }

  predicate GroupsPrintable(groups: seq<Group>) {
    forall i :: 0 <= i < |groups| ==> PrintableGroup(groups[i])
  }

  lemma {:induction false} RunAllPrintable(bs: seq<Block>)
    ensures AllPrintable(RunAll(bs))
  {
    if bs != [] { RunAllPrintable(bs[1..]); }
  }

  lemma {:induction false} DeclarePrintable(names: seq<nat>)
    ensures AllPrintable(Declare(names))
  {
    if names != [] { DeclarePrintable(names[1..]); }
  }

  lemma {:induction false} ConditionPrintable(c: Condition)
    ensures AllPrintable(EmitCondition(c))
  {
    RunAllPrintable(Blocks(c.expr));
  }

  lemma {:induction false} EmitPrintable(a: Ast, k: nat, decls: Declarations, vars: seq<nat>, next: nat)
    ensures AllPrintable(Emit(a, k, decls, vars, next).code)
    decreases a, 2
  {
    if !a.Null? {
      NodePrintable(a, k, decls, vars, next);
      if k in decls { DeclarePrintable(decls[k]); }
    }
  }

  lemma {:induction false} NodePrintable(a: Ast, k: nat, decls: Declarations, vars: seq<nat>, next: nat)
    requires !a.Null?
    ensures AllPrintable(EmitNode(a, k, decls, vars, next).code)
    decreases a, 1
  {
    match a
    case If(_, _, _) => IfPrintable(a, k, decls, vars, next);
    case Scs(_, _) => LoopPrintable(a, k, decls, vars, next);
    case Seq(nodes) => SeqPrintable(nodes, k + 1, decls, vars, next);
    case Switch(_, _, _, _) => SwitchPrintable(a, k, decls, vars, next);
    case Continue(computation, _) => if computation.Computes? { ConditionPrintable(computation.cond); }
    case _ =>
  }

  lemma {:induction false} IfPrintable(a: Ast, k: nat, decls: Declarations, vars: seq<nat>, next: nat)
    requires a.If?
    ensures AllPrintable(EmitNode(a, k, decls, vars, next).code)
    decreases a, 0
  {
    var t := Emit(a.thn, k + 1, decls, vars, next);
    EmitPrintable(a.thn, k + 1, decls, vars, next);
    EmitPrintable(a.els, k + 1 + Size(a.thn), decls, vars, t.next);
    ConditionPrintable(a.cond);
  }

  lemma {:induction false} LoopPrintable(a: Ast, k: nat, decls: Declarations, vars: seq<nat>, next: nat)
    requires a.Scs?
    ensures AllPrintable(EmitNode(a, k, decls, vars, next).code)
    decreases a, 0
  {
    EmitPrintable(a.body, k + 1, decls, vars, next);
    if !a.kind.WhileTrue? { ConditionPrintable(a.kind.related); }
  }

  lemma {:induction false} SeqPrintable(nodes: seq<Ast>, k: nat, decls: Declarations, vars: seq<nat>, next: nat)
    ensures AllPrintable(EmitSeq(nodes, k, decls, vars, next).code)
    decreases nodes, 0
  {
    if nodes != [] {
      EmitPrintable(nodes[0], k, decls, vars, next);
      SeqPrintable(nodes[1..], k + Size(nodes[0]), decls, vars, Emit(nodes[0], k, decls, vars, next).next);
    }
  }

  lemma {:induction false} CasesPrintable(cases: seq<Case>, k: nat, decls: Declarations, vars: seq<nat>, next: nat)
    ensures GroupsPrintable(EmitCases(cases, k, decls, vars, next).groups)
    decreases cases, 0
  {
    if cases != [] {
      var at := k + Size(cases[0].body);
      if cases[0].labels == [] {
        CasesPrintable(cases[1..], at, decls, vars, next);
      } else {
        var first := Emit(cases[0].body, k, decls, vars, next);
        EmitPrintable(cases[0].body, k, decls, vars, next);
        CasesPrintable(cases[1..], at, decls, vars, first.next);
        assert PrintableGroup(Group(cases[0].labels, false, [CCompound(first.code), CBreak]));
      }
    }
  }

  lemma {:induction false} DefaultPrintable(cases: seq<Case>, k: nat, decls: Declarations, vars: seq<nat>, next: nat)
    ensures GroupsPrintable(EmitDefault(cases, k, decls, vars, next).groups)
    decreases cases, 0
  {
    if cases != [] {
      if cases[0].labels == [] {
        EmitPrintable(cases[0].body, k, decls, vars, next);
      } else {
        DefaultPrintable(cases[1..], k + Size(cases[0].body), decls, vars, next);
      }
    }
  }

  lemma {:induction false} SwitchPrintable(a: Ast, k: nat, decls: Declarations, vars: seq<nat>, next: nat)
    requires a.Switch?
    ensures AllPrintable(EmitNode(a, k, decls, vars, next).code)
    decreases a, 0
  {
    var vars1 := if a.needsVar then vars + [next] else vars;
    var next1 := if a.needsVar then next + 1 else next;
    var labelled := EmitCases(a.cases, k + 1, decls, vars1, next1);
    CasesPrintable(a.cases, k + 1, decls, vars1, next1);
    DefaultPrintable(a.cases, k + 1, decls, vars1, labelled.next);
    SwitchCodePrintable(a, next, Top(vars1), labelled.groups,
                        EmitDefault(a.cases, k + 1, decls, vars1, labelled.next).groups);
  }

  lemma {:induction false} SwitchCodePrintable(a: Ast, next: nat, top: nat, l: seq<Group>, d: seq<Group>)
    requires a.Switch? && GroupsPrintable(l) && GroupsPrintable(d)
    ensures AllPrintable(DeclaredVar(a.needsVar, next) + EmitScrutinee(a.on) + [CSwitch(a.on, l + d)]
                         + Dispatch(a.needsDispatcher, top))
  {
    assert GroupsPrintable(l + d);
  }

  /** The C program `code` has the trace and the outcome of the tree, and leaves no
      state variable set. */
  ghost predicate RunsLike(code: seq<CStmt>, a: Ast) {
    forall w: World, fuel: nat, h: History ::
      var g, c := Exec(w, fuel, a, h), ExecCs(w, fuel, code, CState(h, map[]));
      && c.st.h == g.h && OutcomeMatches(g.out, c.out)
      && !g.out.BrokeLoop? && !g.out.BrokeSwitch?
      && forall v :: v in c.st.env ==> !c.st.env[v]
  }

  /** Printing the fixed tree: the text reads back as a C program, in which `break`
      leaves the nearest switch or loop, that behaves like the tree, in which a loop
      break leaves the loop. The assertions of the printer hold on the way. */
  method PrintFunction(a: Ast, decls: Declarations) returns (tokens: seq<Token>)
    requires Placed(a, false, 0) && HasBodies(a)
    ensures ReadStmts(tokens) == Got(Emit(Fix(a, false, 0), 0, decls, [], 0).code, [])
    ensures RunsLike(ReadStmts(tokens).value, a)
  {
    var printer := new CCodeGenerator(decls);
    var fixed := Fix(a, false, 0);
    FixedCovers(a, false, 0, 0);
    ghost var p := SpecOf(decls);
    printer.EmitGHASTNode(fixed, 0, p);
    tokens := printer.output;
    ghost var code := p.node(fixed, 0, [], 0).code;
    assert code == Emit(fixed, 0, decls, [], 0).code;
    assert tokens == TokensAll(code) && tokens + [] == tokens;
    EmitPrintable(fixed, 0, decls, [], 0);
    StmtsRead(code, []);
    forall w: World, fuel: nat, h: History
      ensures var g, c := Exec(w, fuel, a, h), ExecCs(w, fuel, code, CState(h, map[]));
              && c.st.h == g.h && OutcomeMatches(g.out, c.out)
              && !g.out.BrokeLoop? && !g.out.BrokeSwitch?
              && forall v :: v in c.st.env ==> !c.st.env[v]
    {
      PrintedFunctionRunsLikeTree(w, fuel, a, decls, h);
    }
  }
}

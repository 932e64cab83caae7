/** The printed C behaves exactly like the GHAST: same trace, same outcome, at
    every fuel, although C has a single `break` that binds to the nearest switch
    or loop. The proof follows the shape of the tree. */
module Preservation {
  import opened Ghast
  import opened CLang
  import opened Emission

  predicate OutcomeMatches(g: Outcome, c: COutcome) {
    match g
    case Fell => c.CFell?
    case BrokeLoop => c.CBroke?
    case BrokeSwitch => c.CBroke?
    case Continued => c.CContinued?
    case Returned(b) => c == CReturned(b)
    case Halted => c.CHalted?
    case OutOfFuel => c.COutOfFuel?
  }

  /** No state variable is true, and every name from `next` on is unused. */
  predicate Quiet(env: Env, next: nat) {
    forall x :: x in env ==> !env[x] && x < next
  }

  /** How the state variables may look after a statement that started in the quiet
      environment `env0`. Only a loop break on its way out of a switch leaves one
      of them true, and then it is the one on top of the stack. */
  predicate Settled(g: Outcome, switches: nat, top: nat, env0: Env, env1: Env, next: nat) {
    && env0.Keys <= env1.Keys
    && (forall x :: x in env1 ==> x < next)
    && (forall x, y :: x in env1 && y in env1 && env1[x] && env1[y] ==> x == y)
    && if g.BrokeLoop?
       then forall x :: x in env0 ==> env1[x] == (switches > 0 && x == top)
       else forall x :: x in env1 ==> !env1[x]
  }

  /** A run of the printed statements `c` mirrors the run of the tree `g`. */
  predicate Mirrors(g: Res, c: CRes, switches: nat, top: nat, env: Env, next: nat) {
    c.st.h == g.h && OutcomeMatches(g.out, c.out) && Settled(g.out, switches, top, env, c.st.env, next)
  }

  /** What the printer knows when it starts on a node: jumps are well placed, and
      if a loop break has to cross a switch here, a variable for it is in scope. */
  predicate Ready(a: Ast, inLoop: bool, switches: nat, vars: seq<nat>, env: Env, next: nat) {
    && Placed(a, inLoop, switches)
    && Quiet(env, next)
    && (BreaksLoop(a) && switches > 0 ==> vars != [] && Top(vars) in env)
  }

  lemma {:induction false} RunAllIsRunBlocks(w: World, fuel: nat, bs: seq<Block>, h: History, env: Env)
    ensures ExecCs(w, fuel, RunAll(bs), CState(h, env)) == CRes(CFell, CState(RunBlocks(bs, h), env))
  {
    if bs != [] {
      RunAllIsRunBlocks(w, fuel, bs[1..], RunBlock(bs[0], h), env);
    }
  }

  lemma EmitConditionRuns(w: World, fuel: nat, c: Condition, h: History, env: Env)
    ensures ExecCs(w, fuel, EmitCondition(c), CState(h, env)) == CRes(CFell, CState(RunCondition(c, h), env))
  {
    RunAllIsRunBlocks(w, fuel, Blocks(c.expr), h, env);
  }

  lemma {:induction false} DeclareDoesNothing(w: World, fuel: nat, names: seq<nat>, st: CState)
    ensures ExecCs(w, fuel, Declare(names), st) == CRes(CFell, st)
  {
    if names != [] {
      DeclareDoesNothing(w, fuel, names[1..], st);
    }
  }

  lemma {:induction false} BreaksOnlyLoops(a: Ast, switches: nat)
    requires Placed(a, false, switches)
    ensures !BreaksLoop(a)
  {
    match a
    case If(_, thn, els) =>
      BreaksOnlyLoops(thn, switches);
      BreaksOnlyLoops(els, switches);
    case Seq(nodes) =>
      forall i | 0 <= i < |nodes| ensures !BreaksLoop(nodes[i]) { BreaksOnlyLoops(nodes[i], switches); }
    case Switch(_, cases, _, _) =>
      forall i | 0 <= i < |cases| ensures !BreaksLoop(cases[i].body) {
        BreaksOnlyLoops(cases[i].body, switches + 1);
      }
    case _ =>
  }

  /** A tree without outgoing loop breaks never breaks a loop. */
  lemma {:induction false} NoBreakNoBroke(w: World, fuel: nat, a: Ast, h: History)
    requires !BreaksLoop(a)
    ensures !Exec(w, fuel, a, h).out.BrokeLoop?
    decreases fuel, a, 0
  {
    match a
    case If(cond, thn, els) =>
      NoBreakNoBroke(w, fuel, thn, RunCondition(cond, h));
      NoBreakNoBroke(w, fuel, els, RunCondition(cond, h));
    case Scs(kind, body) =>
      LoopNeverBroke(w, fuel, kind, body, if kind.While? then RunCondition(kind.related, h) else h);
    case Seq(nodes) => NoBreakNoBrokeSeq(w, fuel, nodes, h);
    case Switch(on, cases, _, _) =>
      var h1 := RunScrutinee(on, h);
      var k := SelectCase(cases, ScrutineeValue(w, on, h1));
      if k < |cases| { NoBreakNoBroke(w, fuel, cases[k].body, h1); }
    case _ =>
  }

  lemma {:induction false} NoBreakNoBrokeSeq(w: World, fuel: nat, nodes: seq<Ast>, h: History)
    requires forall i :: 0 <= i < |nodes| ==> !BreaksLoop(nodes[i])
    ensures !ExecSeq(w, fuel, nodes, h).out.BrokeLoop?
    decreases fuel, nodes, 0
  {
    if nodes != [] {
      NoBreakNoBroke(w, fuel, nodes[0], h);
      NoBreakNoBrokeSeq(w, fuel, nodes[1..], Exec(w, fuel, nodes[0], h).h);
    }
  }

  /** A tree that is not inside a switch never breaks one. */
  lemma {:induction false} NeverBrokeSwitch(w: World, fuel: nat, a: Ast, inLoop: bool, h: History)
    requires Placed(a, inLoop, 0)
    ensures !Exec(w, fuel, a, h).out.BrokeSwitch?
    decreases fuel, a, 0
  {
    match a
    case If(cond, thn, els) =>
      NeverBrokeSwitch(w, fuel, thn, inLoop, RunCondition(cond, h));
      NeverBrokeSwitch(w, fuel, els, inLoop, RunCondition(cond, h));
    case Scs(kind, body) =>
      LoopNeverBrokeSwitch(w, fuel, kind, body, if kind.While? then RunCondition(kind.related, h) else h);
    case Seq(nodes) => NeverBrokeSwitchSeq(w, fuel, nodes, inLoop, h);
    case _ =>
  }

  lemma {:induction false} NeverBrokeSwitchSeq(w: World, fuel: nat, nodes: seq<Ast>, inLoop: bool, h: History)
    requires forall i :: 0 <= i < |nodes| ==> Placed(nodes[i], inLoop, 0)
    ensures !ExecSeq(w, fuel, nodes, h).out.BrokeSwitch?
    decreases fuel, nodes, 0
  {
    if nodes != [] {
      NeverBrokeSwitch(w, fuel, nodes[0], inLoop, h);
      NeverBrokeSwitchSeq(w, fuel, nodes[1..], inLoop, Exec(w, fuel, nodes[0], h).h);
    }
  }

  lemma {:induction false} LoopNeverBrokeSwitch(w: World, fuel: nat, kind: LoopKind, body: Ast, h: History)
    requires Placed(body, true, 0)
    ensures !Loop(w, fuel, kind, body, h).out.BrokeSwitch?
    decreases fuel, body, 1
  {
    if fuel > 0 {
      NeverBrokeSwitch(w, fuel - 1, body, true, h);
      var step := AfterBody(w, kind, Exec(w, fuel - 1, body, h));
      if step.Again? { LoopNeverBrokeSwitch(w, fuel - 1, kind, body, step.h); }
    }
  }

  /** Whatever the body does, a loop absorbs its breaks. */
  lemma {:induction false} LoopNeverBroke(w: World, fuel: nat, kind: LoopKind, body: Ast, h: History)
    ensures !Loop(w, fuel, kind, body, h).out.BrokeLoop?
    ensures !Loop(w, fuel, kind, body, h).out.Continued?
    decreases fuel, body, 1
  {
    if fuel > 0 {
      var step := AfterBody(w, kind, Exec(w, fuel - 1, body, h));
      if step.Again? { LoopNeverBroke(w, fuel - 1, kind, body, step.h); }
    }
  }

  /** Names that are unused later are unused now. */
  lemma MirrorsLater(g: Res, c: CRes, switches: nat, top: nat, env: Env, next: nat, next1: nat)
    requires Mirrors(g, c, switches, top, env, next) && next <= next1
    ensures Mirrors(g, c, switches, top, env, next1)
  {
  }

  /** After a statement that completed, the next one starts from a quiet environment. */
  lemma MirrorsThen(g0: Res, c0: CRes, g: Res, c: CRes, switches: nat, top: nat, env: Env, next0: nat, next: nat)
    requires Mirrors(g0, c0, switches, top, env, next0) && g0.out.Fell?
    requires Mirrors(g, c, switches, top, c0.st.env, next)
    ensures Mirrors(g, c, switches, top, env, next)
  {
  }

  /** THE MIRROR THEOREM, by structural induction and on fuel. */
  lemma {:induction false} EmitMirrors(w: World, fuel: nat, a: Ast, inLoop: bool, switches: nat,
                                       k: nat, decls: Declarations, vars: seq<nat>, next: nat, h: History, env: Env)
    requires Ready(a, inLoop, switches, vars, env, next)
    ensures var e := Emit(Fix(a, inLoop, switches), k, decls, vars, next);
            Mirrors(Exec(w, fuel, a, h), ExecCs(w, fuel, e.code, CState(h, env)), switches, Top(vars), env, e.next)
    decreases fuel, a, 3
  {
    if !a.Null? {
      var e := EmitNode(Fix(a, inLoop, switches), k, decls, vars, next);
      ExecCsAppend(w, fuel, DeclareAt(decls, k), e.code, CState(h, env));
      if k in decls { DeclareDoesNothing(w, fuel, decls[k], CState(h, env)); }
      EmitNodeMirrors(w, fuel, a, inLoop, switches, k, decls, vars, next, h, env);
    }
  }

  lemma {:induction false} EmitNodeMirrors(w: World, fuel: nat, a: Ast, inLoop: bool, switches: nat,
                                           k: nat, decls: Declarations, vars: seq<nat>, next: nat, h: History, env: Env)
    requires !a.Null? && Ready(a, inLoop, switches, vars, env, next)
    ensures var e := EmitNode(Fix(a, inLoop, switches), k, decls, vars, next);
            Mirrors(Exec(w, fuel, a, h), ExecCs(w, fuel, e.code, CState(h, env)), switches, Top(vars), env, e.next)
    decreases fuel, a, 2
  {
    match a
    case Code(_, _, _) =>
    case If(_, _, _) => IfMirrors(w, fuel, a, inLoop, switches, k, decls, vars, next, h, env);
    case Scs(_, _) => ScsMirrors(w, fuel, a, inLoop, switches, k, decls, vars, next, h, env);
    case Seq(nodes) => SeqMirrors(w, fuel, nodes, inLoop, switches, k + 1, decls, vars, next, h, env);
    case Switch(_, _, _, _) => SwitchMirrors(w, fuel, a, inLoop, switches, k, decls, vars, next, h, env);
    case SwitchBreak =>
    case Set(_) =>
    case Continue(_, _) => ContinueMirrors(w, fuel, a, inLoop, switches, k, decls, vars, next, h, env);
    case Break(_) => BreakMirrors(w, fuel, a, inLoop, switches, k, decls, vars, next, h, env);
  }

  lemma {:induction false} ContinueMirrors(w: World, fuel: nat, a: Ast, inLoop: bool, switches: nat,
                                           k: nat, decls: Declarations, vars: seq<nat>, next: nat, h: History, env: Env)
    requires a.Continue? && Ready(a, inLoop, switches, vars, env, next)
    ensures var e := EmitNode(Fix(a, inLoop, switches), k, decls, vars, next);
            Mirrors(Exec(w, fuel, a, h), ExecCs(w, fuel, e.code, CState(h, env)), switches, Top(vars), env, e.next)
  {
    var before := if a.computation.Computes? then EmitCondition(a.computation.cond) else [];
    var jump := if a.implicit then [] else [CContinue];
    ExecCsAppend(w, fuel, before, jump, CState(h, env));
    if a.computation.Computes? { EmitConditionRuns(w, fuel, a.computation.cond, h, env); }
  }

  lemma {:induction false} BreakMirrors(w: World, fuel: nat, a: Ast, inLoop: bool, switches: nat,
                                        k: nat, decls: Declarations, vars: seq<nat>, next: nat, h: History, env: Env)
    requires a.Break? && Ready(a, inLoop, switches, vars, env, next)
    ensures var e := EmitNode(Fix(a, inLoop, switches), k, decls, vars, next);
            Mirrors(Exec(w, fuel, a, h), ExecCs(w, fuel, e.code, CState(h, env)), switches, Top(vars), env, e.next)
  {
    if switches > 0 {
      assert BreaksLoop(a);
      ExecCsAppend(w, fuel, [CAssignTrue(Top(vars))], [CBreak], CState(h, env));
    }
  }

  /** Reading a compound statement as the body of a branch or a loop. */
  lemma {:induction false} CompoundMirrors(w: World, fuel: nat, a: Ast, inLoop: bool, switches: nat,
                                           k: nat, decls: Declarations, vars: seq<nat>, next: nat, h: History, env: Env)
    requires Ready(a, inLoop, switches, vars, env, next)
    ensures var e := Emit(Fix(a, inLoop, switches), k, decls, vars, next);
            var c := ExecC(w, fuel, CCompound(e.code), CState(h, env));
            Mirrors(Exec(w, fuel, a, h), c, switches, Top(vars), env, e.next) && c.st.env.Keys == env.Keys
    decreases fuel, a, 4
  {
    EmitMirrors(w, fuel, a, inLoop, switches, k, decls, vars, next, h, env);
  }

  lemma {:induction false} PrintedIfRuns(w: World, fuel: nat, cond: Condition, thn: CStmt, els: ElseBranch, h: History,
                                         env: Env)
    ensures var st := CState(RunCondition(cond, h), env);
            ExecCs(w, fuel, EmitCondition(cond) + [CIf(OfGhast(cond.expr), thn, els)], CState(h, env))
            == (if Test(w, cond.expr, st.h) then ExecC(w, fuel, thn, st)
                else if els.Else? then ExecC(w, fuel, els.s, st) else CRes(CFell, st))
  {
    var test := CIf(OfGhast(cond.expr), thn, els);
    ExecCsAppend(w, fuel, EmitCondition(cond), [test], CState(h, env));
    EmitConditionRuns(w, fuel, cond, h, env);
    SingletonRuns(w, fuel, test, CState(RunCondition(cond, h), env));
  }

  lemma SingletonRuns(w: World, fuel: nat, s: CStmt, st: CState)
    ensures ExecCs(w, fuel, [s], st) == ExecC(w, fuel, s, st)
  {
    var r := ExecC(w, fuel, s, st);
    assert ExecCs(w, fuel, [], r.st) == CRes(CFell, r.st);
    assert [s][1..] == [];
  }

  lemma {:induction false} IfMirrors(w: World, fuel: nat, a: Ast, inLoop: bool, switches: nat,
                                     k: nat, decls: Declarations, vars: seq<nat>, next: nat, h: History, env: Env)
    requires a.If? && Ready(a, inLoop, switches, vars, env, next)
    ensures var e := EmitNode(Fix(a, inLoop, switches), k, decls, vars, next);
            Mirrors(Exec(w, fuel, a, h), ExecCs(w, fuel, e.code, CState(h, env)), switches, Top(vars), env, e.next)
    decreases fuel, a, 1
  {
    var thn, els := Fix(a.thn, inLoop, switches), Fix(a.els, inLoop, switches);
    var t := Emit(thn, k + 1, decls, vars, next);
    var e := Emit(els, k + 1 + Size(thn), decls, vars, t.next);
    var elseBranch := if els.Null? then NoElse else Else(CCompound(e.code));
    var h1 := RunCondition(a.cond, h);
    PrintedIfRuns(w, fuel, a.cond, CCompound(t.code), elseBranch, h, env);
    if Test(w, a.cond.expr, h1) {
      CompoundMirrors(w, fuel, a.thn, inLoop, switches, k + 1, decls, vars, next, h1, env);
      MirrorsLater(Exec(w, fuel, a.thn, h1), ExecC(w, fuel, CCompound(t.code), CState(h1, env)),
                   switches, Top(vars), env, t.next, e.next);
    } else if els.Null? {
      assert a.els.Null?;
    } else {
      CompoundMirrors(w, fuel, a.els, inLoop, switches, k + 1 + Size(thn), decls, vars, t.next, h1, env);
    }
  }

  lemma {:induction false} SeqMirrors(w: World, fuel: nat, nodes: seq<Ast>, inLoop: bool, switches: nat,
                                      k: nat, decls: Declarations, vars: seq<nat>, next: nat, h: History, env: Env)
    requires forall i :: 0 <= i < |nodes| ==> Ready(nodes[i], inLoop, switches, vars, env, next)
    requires Quiet(env, next)
    ensures var e := EmitSeq(FixSeq(nodes, inLoop, switches), k, decls, vars, next);
            Mirrors(ExecSeq(w, fuel, nodes, h), ExecCs(w, fuel, e.code, CState(h, env)), switches, Top(vars), env,
                    e.next)
    decreases fuel, nodes, 0
  {
    if nodes != [] {
      var fixed := FixSeq(nodes, inLoop, switches);
      assert fixed[1..] == FixSeq(nodes[1..], inLoop, switches);
      var first := Emit(fixed[0], k, decls, vars, next);
      var rest := EmitSeq(fixed[1..], k + Size(fixed[0]), decls, vars, first.next);
      ExecCsAppend(w, fuel, first.code, rest.code, CState(h, env));
      EmitMirrors(w, fuel, nodes[0], inLoop, switches, k, decls, vars, next, h, env);
      var r := Exec(w, fuel, nodes[0], h);
      var c := ExecCs(w, fuel, first.code, CState(h, env));
      if r.out.Fell? {
        forall i | 0 <= i < |nodes[1..]|
          ensures Ready(nodes[1..][i], inLoop, switches, vars, c.st.env, first.next)
        {
          assert Ready(nodes[i + 1], inLoop, switches, vars, env, next);
        }
        SeqMirrors(w, fuel, nodes[1..], inLoop, switches, k + Size(fixed[0]), decls, vars, first.next, r.h, c.st.env);
        MirrorsThen(r, c, ExecSeq(w, fuel, nodes[1..], r.h), ExecCs(w, fuel, rest.code, c.st),
                    switches, Top(vars), env, first.next, rest.next);
      } else {
        MirrorsLater(r, c, switches, Top(vars), env, first.next, rest.next);
      }
    }
  }

  lemma {:induction false} ScsMirrors(w: World, fuel: nat, a: Ast, inLoop: bool, switches: nat,
                                      k: nat, decls: Declarations, vars: seq<nat>, next: nat, h: History, env: Env)
    requires a.Scs? && Ready(a, inLoop, switches, vars, env, next)
    ensures var e := EmitNode(Fix(a, inLoop, switches), k, decls, vars, next);
            Mirrors(Exec(w, fuel, a, h), ExecCs(w, fuel, e.code, CState(h, env)), switches, Top(vars), env, e.next)
    decreases fuel, a, 1
  {
    var b := Emit(Fix(a.body, true, 0), k + 1, decls, vars, next);
    LoopNeverBroke(w, fuel, a.kind, a.body, if a.kind.While? then RunCondition(a.kind.related, h) else h);
    match a.kind
    case WhileTrue =>
      LoopMirrors(w, fuel, a.kind, a.body, k + 1, decls, vars, next, h, env);
    case While(c) =>
      var h1 := RunCondition(c, h);
      ExecCsAppend(w, fuel, EmitCondition(c), [CWhile(OfGhast(c.expr), CCompound(b.code))], CState(h, env));
      EmitConditionRuns(w, fuel, c, h, env);
      LoopMirrors(w, fuel, a.kind, a.body, k + 1, decls, vars, next, h1, env);
    case DoWhile(c) =>
      LoopMirrors(w, fuel, a.kind, a.body, k + 1, decls, vars, next, h, env);
  }

  /** The C loop that is printed for a loop of the given kind. */
  function PrintedTest(kind: LoopKind): CExpr {
    if kind.WhileTrue? then TrueLiteral else OfGhast(kind.related.expr)
  }

  function PrintedBody(kind: LoopKind, code: seq<CStmt>): CStmt {
    CCompound(if kind.DoWhile? then code + EmitCondition(kind.related) else code)
  }

  function EndOfBody(kind: LoopKind, env: Env, inner: CRes): CRes {
    LeaveScope(env, if kind.DoWhile? && inner.out.CFell?
                    then CRes(CFell, CState(RunCondition(kind.related, inner.st.h), inner.st.env))
                    else inner)
  }

  lemma PrintedBodyRuns(w: World, fuel: nat, kind: LoopKind, code: seq<CStmt>, h: History, env: Env)
    ensures ExecC(w, fuel, PrintedBody(kind, code), CState(h, env))
         == EndOfBody(kind, env, ExecCs(w, fuel, code, CState(h, env)))
  {
    if kind.DoWhile? {
      var inner := ExecCs(w, fuel, code, CState(h, env));
      ExecCsAppend(w, fuel, code, EmitCondition(kind.related), CState(h, env));
      EmitConditionRuns(w, fuel, kind.related, inner.st.h, inner.st.env);
    }
  }

  /** One iteration of the printed loop takes the same decision as the tree's, and
      restores the state variables. */
  lemma IterationMirrors(w: World, kind: LoopKind, g: Res, inner: CRes, top: nat, env: Env, next: nat)
    requires Mirrors(g, inner, 0, top, env, next) && !g.out.BrokeSwitch?
    requires forall x :: x in env ==> !env[x]
    ensures var step := AfterBody(w, kind, g);
            var c := EndOfBody(kind, env, inner);
            var cstep := AfterCBody(w, !kind.DoWhile?, PrintedTest(kind), c);
            if step.Again? then cstep == CAgain(CState(step.h, env))
            else cstep.CStop? && cstep.res.st == CState(step.res.h, env) && OutcomeMatches(step.res.out, cstep.res.out)
  {
    var c := EndOfBody(kind, env, inner);
    assert c.st.env == env;
  }

  lemma {:induction false} BodyMirrors(w: World, fuel: nat, kind: LoopKind, body: Ast,
                                       k: nat, decls: Declarations, vars: seq<nat>, next: nat, h: History, env: Env)
    requires Placed(body, true, 0) && Quiet(env, next)
    ensures var e := Emit(Fix(body, true, 0), k, decls, vars, next);
            var step := AfterBody(w, kind, Exec(w, fuel, body, h));
            var c := ExecC(w, fuel, PrintedBody(kind, e.code), CState(h, env));
            var cstep := AfterCBody(w, !kind.DoWhile?, PrintedTest(kind), c);
            if step.Again? then cstep == CAgain(CState(step.h, env))
            else cstep.CStop? && cstep.res.st == CState(step.res.h, env) && OutcomeMatches(step.res.out, cstep.res.out)
    decreases fuel, body, 4
  {
    var e := Emit(Fix(body, true, 0), k, decls, vars, next);
    EmitMirrors(w, fuel, body, true, 0, k, decls, vars, next, h, env);
    NeverBrokeSwitch(w, fuel, body, true, h);
    PrintedBodyRuns(w, fuel, kind, e.code, h, env);
    IterationMirrors(w, kind, Exec(w, fuel, body, h), ExecCs(w, fuel, e.code, CState(h, env)), Top(vars), env, e.next);
  }

  lemma {:induction false} LoopGoesOn(w: World, fuel: nat, kind: LoopKind, body: Ast, code: seq<CStmt>, h: History,
                                      env: Env)
    requires fuel > 0 && (kind.While? ==> Test(w, kind.related.expr, h))
    requires var step := AfterBody(w, kind, Exec(w, fuel - 1, body, h));
             var printed := PrintedBody(kind, code);
             var cstep := AfterCBody(w, !kind.DoWhile?, PrintedTest(kind), ExecC(w, fuel - 1, printed, CState(h, env)));
             if step.Again? then
               var g := Loop(w, fuel - 1, kind, body, step.h);
               var c := CLoop(w, fuel - 1, !kind.DoWhile?, PrintedTest(kind), printed, CState(step.h, env));
               cstep == CAgain(CState(step.h, env)) && c.st == CState(g.h, env) && OutcomeMatches(g.out, c.out)
             else cstep.CStop? && cstep.res.st == CState(step.res.h, env) && OutcomeMatches(step.res.out, cstep.res.out)
    ensures var g := Loop(w, fuel, kind, body, h);
            var c := CLoop(w, fuel, !kind.DoWhile?, PrintedTest(kind), PrintedBody(kind, code), CState(h, env));
            c.st == CState(g.h, env) && OutcomeMatches(g.out, c.out)
  {
  }

  lemma {:induction false} LoopMirrors(w: World, fuel: nat, kind: LoopKind, body: Ast,
                                       k: nat, decls: Declarations, vars: seq<nat>, next: nat, h: History, env: Env)
    requires Placed(body, true, 0) && Quiet(env, next)
    ensures var e := Emit(Fix(body, true, 0), k, decls, vars, next);
            var g := Loop(w, fuel, kind, body, h);
            var c := CLoop(w, fuel, !kind.DoWhile?, PrintedTest(kind), PrintedBody(kind, e.code), CState(h, env));
            c.st == CState(g.h, env) && OutcomeMatches(g.out, c.out)
    decreases fuel, body, 4
  {
    if fuel > 0 && (kind.While? ==> Test(w, kind.related.expr, h)) {
      BodyMirrors(w, fuel - 1, kind, body, k, decls, vars, next, h, env);
      var step := AfterBody(w, kind, Exec(w, fuel - 1, body, h));
      if step.Again? {
        LoopMirrors(w, fuel - 1, kind, body, k, decls, vars, next, step.h, env);
      }
      LoopGoesOn(w, fuel, kind, body, Emit(Fix(body, true, 0), k, decls, vars, next).code, h, env);
    }
  }

  // ----- Switches -----

  /** The group holds the code of a case, which names no variable beyond `limit`. */
  predicate Holds(g: Group, body: Ast, k: nat, decls: Declarations, vars: seq<nat>, next: nat, limit: nat) {
    var e := Emit(body, k, decls, vars, next);
    e.next <= limit && g.stmts == [CCompound(e.code), CBreak]
  }

  predicate NoneIsDefault(groups: seq<Group>) {
    forall g :: 0 <= g < |groups| ==> !groups[g].isDefault
  }

  /** The group printed for the case at index `i` holds its code, from label `kc` and
      variable `nc` on. */
  ghost predicate Grouped(cases: seq<Case>, i: nat, v: nat, k: nat, decls: Declarations, vars: seq<nat>, next: nat,
                          kc: nat, nc: nat)
    requires i <= |cases|
  {
    var e := EmitCases(cases, k, decls, vars, next);
    var j := LabelledGroup(e.groups, v);
    && next <= nc
    && (i < |cases| ==> j < |e.groups| && Holds(e.groups[j], cases[i].body, kc, decls, vars, nc, e.next))
    && (i == |cases| ==> j == |e.groups|)
    && NoneIsDefault(e.groups)
  }

  lemma {:induction false} DefaultIsSkipped(cases: seq<Case>, i: nat, v: nat, k: nat, decls: Declarations,
                                            vars: seq<nat>, next: nat, kc: nat, nc: nat)
    requires cases != [] && cases[0].labels == [] && i <= |cases| - 1
    requires Grouped(cases[1..], i, v, k + Size(cases[0].body), decls, vars, next, kc, nc)
    ensures Grouped(cases, i + 1, v, k, decls, vars, next, kc, nc)
  {
  }

  lemma {:induction false} OtherCaseIsGrouped(cases: seq<Case>, i: nat, v: nat, k: nat, decls: Declarations,
                                              vars: seq<nat>, next: nat, kc: nat, nc: nat)
    requires cases != [] && cases[0].labels != [] && v !in cases[0].labels && i <= |cases| - 1
    requires Grouped(cases[1..], i, v, k + Size(cases[0].body), decls, vars,
                     Emit(cases[0].body, k, decls, vars, next).next, kc, nc)
    ensures Grouped(cases, i + 1, v, k, decls, vars, next, kc, nc)
  {
    var first := Emit(cases[0].body, k, decls, vars, next);
    var rest := EmitCases(cases[1..], k + Size(cases[0].body), decls, vars, first.next);
    var g := Group(cases[0].labels, false, [CCompound(first.code), CBreak]);
    assert EmitCases(cases, k, decls, vars, next) == EmittedGroups([g] + rest.groups, rest.next);
    FirstGroup(g, rest.groups, v);
  }

  lemma {:induction false} FirstCaseIsGrouped(cases: seq<Case>, i: nat, v: nat, k: nat, decls: Declarations,
                                              vars: seq<nat>, next: nat, kc: nat, nc: nat)
    requires cases != [] && v in cases[0].labels && i <= |cases| - 1
    requires Grouped(cases[1..], i, v, k + Size(cases[0].body), decls, vars,
                     Emit(cases[0].body, k, decls, vars, next).next, kc, nc)
    ensures Grouped(cases, 0, v, k, decls, vars, next, k, next)
  {
    var first := Emit(cases[0].body, k, decls, vars, next);
    var rest := EmitCases(cases[1..], k + Size(cases[0].body), decls, vars, first.next);
    var g := Group(cases[0].labels, false, [CCompound(first.code), CBreak]);
    assert EmitCases(cases, k, decls, vars, next) == EmittedGroups([g] + rest.groups, rest.next);
    FirstGroup(g, rest.groups, v);
  }

  /** The group printed for the case at index `i`, and its place in the output. */
  lemma {:induction false} LabelledGroupOf(cases: seq<Case>, i: nat, v: nat,
                                           k: nat, decls: Declarations, vars: seq<nat>, next: nat)
      returns (kc: nat, nc: nat)
    requires i == LabelledCase(cases, v)
    ensures Grouped(cases, i, v, k, decls, vars, next, kc, nc)
  {
    kc, nc := k, next;
    if cases != [] {
      var j, at := LabelledCase(cases[1..], v), k + Size(cases[0].body);
      if cases[0].labels == [] {
        kc, nc := LabelledGroupOf(cases[1..], j, v, at, decls, vars, next);
        DefaultIsSkipped(cases, j, v, k, decls, vars, next, kc, nc);
      } else {
        kc, nc := LabelledGroupOf(cases[1..], j, v, at, decls, vars, Emit(cases[0].body, k, decls, vars, next).next);
        if v in cases[0].labels {
          FirstCaseIsGrouped(cases, j, v, k, decls, vars, next, kc, nc);
          kc, nc := k, next;
        } else {
          OtherCaseIsGrouped(cases, j, v, k, decls, vars, next, kc, nc);
        }
      }
    }
  }

  lemma {:induction false} FirstGroup(g: Group, rest: seq<Group>, v: nat)
    ensures LabelledGroup([g] + rest, v) == if v in g.labels then 0 else 1 + LabelledGroup(rest, v)
    ensures forall i :: 0 <= i < |rest| ==> ([g] + rest)[1 + i] == rest[i]
    ensures NoneIsDefault(rest) && !g.isDefault ==> NoneIsDefault([g] + rest)
  {
    assert ([g] + rest)[1..] == rest;
  }

  lemma {:induction false} DefaultGroupOf(cases: seq<Case>, i: nat,
                                          k: nat, decls: Declarations, vars: seq<nat>, next: nat)
      returns (kc: nat)
    requires i == DefaultCase(cases)
    ensures var groups := EmitDefault(cases, k, decls, vars, next).groups;
            if i < |cases|
            then EmitDefault(cases, k, decls, vars, next)
              == EmittedGroups([Group([], true, [CCompound(Emit(cases[i].body, kc, decls, vars, next).code), CBreak])],
                               Emit(cases[i].body, kc, decls, vars, next).next)
            else groups == []
  {
    kc := k;
    if cases != [] && cases[0].labels != [] {
      kc := DefaultGroupOf(cases[1..], i - 1, k + Size(cases[0].body), decls, vars, next);
    }
  }

  lemma {:induction false} SelectAppended(a: seq<Group>, b: seq<Group>, v: nat)
    requires NoneIsDefault(a)
    requires forall g :: 0 <= g < |b| ==> b[g].isDefault && b[g].labels == []
    ensures LabelledGroup(a, v) < |a| ==> SelectGroup(a + b, v) == LabelledGroup(a, v)
    ensures LabelledGroup(a, v) == |a| ==> SelectGroup(a + b, v) == |a|
  {
    LabelledAppended(a, b, v);
    DefaultAppended(a, b);
  }

  lemma {:induction false} LabelledAppended(a: seq<Group>, b: seq<Group>, v: nat)
    requires forall g :: 0 <= g < |b| ==> b[g].labels == []
    ensures LabelledGroup(a + b, v) == if LabelledGroup(a, v) < |a| then LabelledGroup(a, v) else |a + b|
  {
    if a != [] {
      assert (a + b)[1..] == a[1..] + b;
      LabelledAppended(a[1..], b, v);
    } else {
      assert a + b == b;
      if b != [] {
        assert [] + b[1..] == b[1..];
        LabelledAppended([], b[1..], v);
      }
    }
  }

  lemma {:induction false} DefaultAppended(a: seq<Group>, b: seq<Group>)
    requires forall g :: 0 <= g < |a| ==> !a[g].isDefault
    requires forall g :: 0 <= g < |b| ==> b[g].isDefault
    ensures DefaultGroup(a + b) == |a|
  {
    if a != [] {
      assert (a + b)[1..] == a[1..] + b;
      DefaultAppended(a[1..], b);
    } else {
      assert a + b == b;
    }
  }

  /** The printed group that runs on value `v` holds the case that the tree selects. */
  lemma {:induction false} SelectedGroup(cases: seq<Case>, v: nat, k: nat, decls: Declarations, vars: seq<nat>,
                                         next: nat)
      returns (kc: nat, nc: nat)
    ensures var labelled := EmitCases(cases, k, decls, vars, next);
            var default := EmitDefault(cases, k, decls, vars, labelled.next);
            var groups := labelled.groups + default.groups;
            var i := SelectCase(cases, v);
            var j := SelectGroup(groups, v);
            && next <= nc
            && (i == |cases| ==> j == |groups|)
            && (i < |cases| ==>
                  && j < |groups|
                  && groups[j].stmts == [CCompound(Emit(cases[i].body, kc, decls, vars, nc).code), CBreak]
                  && Emit(cases[i].body, kc, decls, vars, nc).next <= default.next)
  {
    var labelled := EmitCases(cases, k, decls, vars, next);
    var default := EmitDefault(cases, k, decls, vars, labelled.next);
    kc, nc := LabelledGroupOf(cases, LabelledCase(cases, v), v, k, decls, vars, next);
    var kd := DefaultGroupOf(cases, DefaultCase(cases), k, decls, vars, labelled.next);
    SelectAppended(labelled.groups, default.groups, v);
    if LabelledCase(cases, v) == |cases| {
      kc, nc := kd, labelled.next;
    }
  }

  /** Running the selected group: its trailing `break` stops the fall into the next one. */
  lemma {:induction false} GroupRuns(w: World, fuel: nat, groups: seq<Group>, j: nat, code: seq<CStmt>, st: CState)
    requires j < |groups| && groups[j].stmts == [CCompound(code), CBreak]
    ensures ExecGroups(w, fuel, groups[j..], st)
         == var r := ExecC(w, fuel, CCompound(code), st);
            if r.out.CFell? then CRes(CBroke, r.st) else r
  {
    assert groups[j..][0] == groups[j];
    var r := ExecC(w, fuel, CCompound(code), st);
    assert ExecCs(w, fuel, [CBreak], r.st) == CRes(CBroke, r.st);
    assert [CCompound(code), CBreak][1..] == [CBreak];
  }

  /** The statements around a printed switch: the declaration of a state variable
      and the scrutinee in front of it, the dispatcher behind it. */
  lemma PrintedSwitchRuns(w: World, fuel: nat, on: Scrutinee, declared: seq<CStmt>, switch: CStmt, dispatch: seq<CStmt>,
                          needsVar: bool, v: nat, h: History, env: Env)
    requires declared == if needsVar then [CDeclareFalse(v)] else []
    ensures var st := CState(RunScrutinee(on, h), if needsVar then env[v := false] else env);
            ExecCs(w, fuel, declared + EmitScrutinee(on) + [switch] + dispatch, CState(h, env))
            == (var r := ExecC(w, fuel, switch, st);
                if r.out.CFell? then ExecCs(w, fuel, dispatch, r.st) else r)
  {
    var before := declared + EmitScrutinee(on);
    var st := CState(RunScrutinee(on, h), if needsVar then env[v := false] else env);
    ExecCsAppend(w, fuel, before + [switch], dispatch, CState(h, env));
    ExecCsAppend(w, fuel, before, [switch], CState(h, env));
    ExecCsAppend(w, fuel, declared, EmitScrutinee(on), CState(h, env));
    if needsVar { SingletonRuns(w, fuel, declared[0], CState(h, env)); }
    if on.OfValue? && !on.weaved { SingletonRuns(w, fuel, CRun(on.bb, Jumps), CState(h, st.env)); }
    SingletonRuns(w, fuel, switch, st);
  }

  /** What the dispatcher behind a switch makes of its result. */
  lemma DispatchMirrors(w: World, fuel: nat, g: Res, c: CRes, needsDispatcher: bool, top: nat, env1: Env)
    requires c.st.h == g.h && c.st.env.Keys == env1.Keys
    requires if g.out.BrokeLoop? then c.out.CFell? && needsDispatcher && top in env1 else OutcomeMatches(g.out, c.out)
    requires forall x :: x in env1 ==> c.st.env[x] == (g.out.BrokeLoop? && x == top)
    ensures var dispatch := if needsDispatcher then [CIf(StateVar(top), CBreak, NoElse)] else [];
            var r := if c.out.CFell? then ExecCs(w, fuel, dispatch, c.st) else c;
            r.st == c.st && OutcomeMatches(g.out, r.out)
  {
    if needsDispatcher { SingletonRuns(w, fuel, CIf(StateVar(top), CBreak, NoElse), c.st); }
  }

  lemma {:induction false} SwitchMirrors(w: World, fuel: nat, a: Ast, inLoop: bool, switches: nat,
                                         k: nat, decls: Declarations, vars: seq<nat>, next: nat, h: History, env: Env)
    requires a.Switch? && Ready(a, inLoop, switches, vars, env, next)
    ensures var e := EmitNode(Fix(a, inLoop, switches), k, decls, vars, next);
            Mirrors(Exec(w, fuel, a, h), ExecCs(w, fuel, e.code, CState(h, env)), switches, Top(vars), env, e.next)
    decreases fuel, a, 1
  {
    var f := Fix(a, inLoop, switches);
    if !inLoop { BreaksOnlyLoops(a, switches); }
    assert f.needsDispatcher == BreaksLoop(a) && f.needsVar == (BreaksLoop(a) && switches == 0);
    var vars1 := if f.needsVar then vars + [next] else vars;
    var next1 := if f.needsVar then next + 1 else next;
    var env1: Env := if f.needsVar then env[next := false] else env;
    var declared := if f.needsVar then [CDeclareFalse(next)] else [];
    var h1 := RunScrutinee(a.on, h);
    var v := ScrutineeValue(w, a.on, h1);
    var groups, next2, kc, nc := PrintedGroups(a, f.cases, v, inLoop, switches, k + 1, decls, vars1, next1);
    var switch := CSwitch(a.on, groups);
    var dispatch := if f.needsDispatcher then [CIf(StateVar(Top(vars1)), CBreak, NoElse)] else [];
    PrintedSwitchRuns(w, fuel, a.on, declared, switch, dispatch, f.needsVar, next, h, env);
    var g := SwitchBodyMirrors(w, fuel, a, inLoop, switches, decls, vars1, next1, groups, kc, nc, h1, env1);
    if !BreaksLoop(a) { NoBreakNoBroke(w, fuel, a, h); }
    DispatchMirrors(w, fuel, g, ExecC(w, fuel, switch, CState(h1, env1)), f.needsDispatcher, Top(vars1), env1);
  }

  /** All groups of a switch, and where the one that runs on `v` comes from. */
  lemma PrintedGroups(a: Ast, cases: seq<Case>, v: nat, inLoop: bool, switches: nat,
                      k: nat, decls: Declarations, vars: seq<nat>, next: nat)
      returns (groups: seq<Group>, next2: nat, kc: nat, nc: nat)
    requires a.Switch? && cases == FixCases(a.cases, inLoop, switches)
    ensures var labelled := EmitCases(cases, k, decls, vars, next);
            var default := EmitDefault(cases, k, decls, vars, labelled.next);
            groups == labelled.groups + default.groups && next2 == default.next
    ensures next <= nc && next <= next2
    ensures GroupPrintedFor(a, v, inLoop, switches, decls, vars, groups, kc, nc)
  {
    var labelled := EmitCases(cases, k, decls, vars, next);
    var default := EmitDefault(cases, k, decls, vars, labelled.next);
    groups, next2 := labelled.groups + default.groups, default.next;
    SelectDependsOnLabels(a.cases, cases, v);
    kc, nc := SelectedGroup(cases, v, k, decls, vars, next);
  }

  ghost predicate GroupPrintedFor(a: Ast, v: nat, inLoop: bool, switches: nat, decls: Declarations, vars: seq<nat>,
                                  groups: seq<Group>, kc: nat, nc: nat)
    requires a.Switch?
  {
    var i := SelectCase(a.cases, v);
    var j := SelectGroup(groups, v);
    if i < |a.cases|
    then j < |groups|
         && groups[j].stmts
         == [CCompound(Emit(Fix(a.cases[i].body, inLoop, switches + 1), kc, decls, vars, nc).code), CBreak]
    else j == |groups|
  }

  /** Executing a printed switch once the group that runs is known. */
  lemma PrintedGroupRuns(w: World, fuel: nat, on: Scrutinee, groups: seq<Group>, found: bool, code: seq<CStmt>,
                         st: CState)
    requires var j := SelectGroup(groups, ScrutineeValue(w, on, st.h));
             if found then j < |groups| && groups[j].stmts == [CCompound(code), CBreak] else j == |groups|
    ensures ExecC(w, fuel, CSwitch(on, groups), st)
         == LeaveScope(st.env, if found
                               then (var r := ExecC(w, fuel, CCompound(code), st);
                                     if r.out.CBroke? then CRes(CFell, r.st) else r)
                               else CRes(CFell, st))
  {
    var j := SelectGroup(groups, ScrutineeValue(w, on, st.h));
    if found { GroupRuns(w, fuel, groups, j, code, st); } else { assert groups[j..] == []; }
  }

  /** The switch statement alone: a loop break comes out of it as normal
      completion with the variable on top of the stack set. */
  lemma {:induction false} SwitchBodyMirrors(w: World, fuel: nat, a: Ast, inLoop: bool, switches: nat,
                                             decls: Declarations, vars: seq<nat>, next: nat,
                                             groups: seq<Group>, kc: nat, nc: nat, h: History, env: Env)
      returns (g: Res)
    requires a.Switch? && Placed(a, inLoop, switches) && Quiet(env, next) && next <= nc
    requires BreaksLoop(a) ==> vars != [] && Top(vars) in env
    requires GroupPrintedFor(a, ScrutineeValue(w, a.on, h), inLoop, switches, decls, vars, groups, kc, nc)
    ensures var c := ExecC(w, fuel, CSwitch(a.on, groups), CState(h, env));
            var i := SelectCase(a.cases, ScrutineeValue(w, a.on, h));
            && g == (if i < |a.cases| then LeaveSwitch(Exec(w, fuel, a.cases[i].body, h)) else Res(Fell, h))
            && c.st.h == g.h
            && c.st.env.Keys == env.Keys
            && (if g.out.BrokeLoop? then c.out.CFell? else OutcomeMatches(g.out, c.out))
            && (forall x :: x in env ==> c.st.env[x] == (g.out.BrokeLoop? && x == Top(vars)))
    decreases fuel, a, 0
  {
    var i := SelectCase(a.cases, ScrutineeValue(w, a.on, h));
    if i < |a.cases| {
      var body := a.cases[i].body;
      var r := Exec(w, fuel, body, h);
      g := LeaveSwitch(r);
      var e := Emit(Fix(body, inLoop, switches + 1), kc, decls, vars, nc);
      PrintedGroupRuns(w, fuel, a.on, groups, true, e.code, CState(h, env));
      assert BreaksLoop(body) ==> BreaksLoop(a);
      CompoundMirrors(w, fuel, body, inLoop, switches + 1, kc, decls, vars, nc, h, env);
      CaughtBySwitch(r, ExecC(w, fuel, CCompound(e.code), CState(h, env)), switches + 1, Top(vars), env, e.next);
    } else {
      g := Res(Fell, h);
      PrintedGroupRuns(w, fuel, a.on, groups, false, [], CState(h, env));
      assert forall x :: x in env ==> !env[x];
    }
  }

  lemma CaughtBySwitch(r: Res, c: CRes, switches: nat, top: nat, env: Env, next: nat)
    requires Mirrors(r, c, switches, top, env, next) && c.st.env.Keys == env.Keys && switches > 0
    ensures var g := LeaveSwitch(r);
            var s := LeaveScope(env, if c.out.CBroke? then CRes(CFell, c.st) else c);
            && s.st.h == g.h && s.st.env.Keys == env.Keys
            && (if g.out.BrokeLoop? then s.out.CFell? else OutcomeMatches(g.out, s.out))
            && (forall x :: x in env ==> s.st.env[x] == (g.out.BrokeLoop? && x == top))
  {
  }

  /** The printed body of a function, run in an empty scope, has the trace and the
      outcome of the tree; when it completes no state variable is left set. This
      holds for every placement of variable declarations, and for diverging runs
      because it holds at every fuel. */
  lemma PrintedFunctionRunsLikeTree(w: World, fuel: nat, a: Ast, decls: Declarations, h: History)
    requires Placed(a, false, 0)
    ensures var g := Exec(w, fuel, a, h);
            var c := ExecCs(w, fuel, Emit(Fix(a, false, 0), 0, decls, [], 0).code, CState(h, map[]));
            && c.st.h == g.h
            && OutcomeMatches(g.out, c.out)
            && !g.out.BrokeLoop? && !g.out.BrokeSwitch?
            && forall v :: v in c.st.env ==> !c.st.env[v]
  {
    BreaksOnlyLoops(a, 0);
    EmitMirrors(w, fuel, a, false, 0, 0, decls, [], 0, h, map[]);
    NoBreakNoBroke(w, fuel, a, h);
    NeverBrokeSwitch(w, fuel, a, false, h);
  }
}

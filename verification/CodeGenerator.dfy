/** The printer itself: it appends tokens to its output, pushes and pops switch state
    variables, and numbers fresh ones. */
module CodeGenerator {
  import opened Ghast
  import opened CLang
  import opened Emission
  import opened CTokens

  /** The assertions of the printer: it finds a state variable on the stack whenever it
      reads one, starting with `depth` variables on it, and every loop but a do-while has
      a body. */
  predicate MayEmit(a: Ast, depth: nat) {
    match a
    case If(_, thn, els) => MayEmit(thn, depth) && MayEmit(els, depth)
    case Scs(kind, body) => (kind.DoWhile? || !body.Null?) && MayEmit(body, depth)
    case Seq(nodes) => forall i :: 0 <= i < |nodes| ==> MayEmit(nodes[i], depth)
    case Switch(_, cases, needsVar, needsDispatcher) =>
      var inner := if needsVar then depth + 1 else depth;
      && (needsVar ==> needsDispatcher) && (needsDispatcher ==> inner > 0)
      && forall i :: 0 <= i < |cases| ==> MayEmit(cases[i].body, inner)
    case Break(fromSwitch) => fromSwitch ==> depth > 0
    case _ => true
  }

  /** Every loop but a do-while has a body. */
  predicate HasBodies(a: Ast) {
    match a
    case If(_, thn, els) => HasBodies(thn) && HasBodies(els)
    case Scs(kind, body) => (kind.DoWhile? || !body.Null?) && HasBodies(body)
    case Seq(nodes) => forall i :: 0 <= i < |nodes| ==> HasBodies(nodes[i])
    case Switch(_, cases, _, _) => forall i :: 0 <= i < |cases| ==> HasBodies(cases[i].body)
    case _ => true
  }

  /** Whenever the break fixer has run, the stack is never empty when it is read. The
      outermost switch that a loop break leaves pushes the variable for it. */
  lemma {:induction false} FixedCovers(a: Ast, inLoop: bool, switches: nat, depth: nat)
    requires Placed(a, inLoop, switches) && HasBodies(a) && (switches > 0 && inLoop && BreaksLoop(a) ==> depth > 0)
    ensures MayEmit(Fix(a, inLoop, switches), depth)
    decreases a
  {
    match a
    case If(_, thn, els) =>
      FixedCovers(thn, inLoop, switches, depth);
      FixedCovers(els, inLoop, switches, depth);
    case Scs(_, body) => FixedCovers(body, true, 0, depth);
    case Seq(nodes) =>
      forall i | 0 <= i < |nodes| ensures MayEmit(FixSeq(nodes, inLoop, switches)[i], depth) {
        assert BreaksLoop(nodes[i]) ==> BreaksLoop(a);
        FixedCovers(nodes[i], inLoop, switches, depth);
      }
    case Switch(_, cases, _, _) =>
      var crosses := inLoop && BreaksLoop(a);
      var inner := if crosses && switches == 0 then depth + 1 else depth;
      forall i | 0 <= i < |cases| ensures MayEmit(FixCases(cases, inLoop, switches)[i].body, inner) {
        assert BreaksLoop(cases[i].body) ==> BreaksLoop(a);
        FixedCovers(cases[i].body, inLoop, switches + 1, inner);
      }
    case _ =>
  }

  // ----- What the printer has to print -----

  /** The specification as a value: what a node, the rest of a sequence, labelled cases
      and the default case print. Inside the printer its values stay folded. */
  datatype Spec = Spec(
    node: (Ast, nat, seq<nat>, nat) -> Emitted,
    nodes: (seq<Ast>, nat, seq<nat>, nat) -> Emitted,
    cases: (seq<Case>, nat, seq<nat>, nat) -> EmittedGroups,
    default: (seq<Case>, nat, seq<nat>, nat) -> EmittedGroups,
    condition: Condition -> seq<CStmt>)

  ghost predicate Specifies(p: Spec, decls: Declarations) {
    && (forall a: Ast, k: nat, vars: seq<nat>, next: nat {:trigger Emit(a, k, decls, vars, next)} ::
          p.node(a, k, vars, next) == Emit(a, k, decls, vars, next))
    && (forall s: seq<Ast>, k: nat, vars: seq<nat>, next: nat {:trigger EmitSeq(s, k, decls, vars, next)} ::
          p.nodes(s, k, vars, next) == EmitSeq(s, k, decls, vars, next))
    && (forall c: seq<Case>, k: nat, vars: seq<nat>, next: nat {:trigger EmitCases(c, k, decls, vars, next)} ::
          p.cases(c, k, vars, next) == EmitCases(c, k, decls, vars, next))
    && (forall c: seq<Case>, k: nat, vars: seq<nat>, next: nat {:trigger EmitDefault(c, k, decls, vars, next)} ::
          p.default(c, k, vars, next) == EmitDefault(c, k, decls, vars, next))
    && (forall c: Condition {:trigger EmitCondition(c)} :: p.condition(c) == EmitCondition(c))
  }

  ghost function SpecOf(decls: Declarations): (p: Spec)
    ensures Specifies(p, decls)
  {
    Spec((a: Ast, k: nat, vars: seq<nat>, next: nat) => Emit(a, k, decls, vars, next),
         (s: seq<Ast>, k: nat, vars: seq<nat>, next: nat) => EmitSeq(s, k, decls, vars, next),
         (c: seq<Case>, k: nat, vars: seq<nat>, next: nat) => EmitCases(c, k, decls, vars, next),
         (c: seq<Case>, k: nat, vars: seq<nat>, next: nat) => EmitDefault(c, k, decls, vars, next),
         (c: Condition) => EmitCondition(c))
  }

  /** `e` is what a node prints behind the declarations in front of it. */
  ghost predicate Behind(p: Spec, decls: Declarations, a: Ast, k: nat, vars: seq<nat>, next: nat, e: Emitted) {
    p.node(a, k, vars, next) == Emitted(DeclareAt(decls, k) + e.code, e.next)
  }

  lemma {:induction false} BehindDeclarations(p: Spec, decls: Declarations, a: Ast, k: nat, vars: seq<nat>, next: nat)
    returns (e: Emitted)
    requires Specifies(p, decls) && !a.Null?
    ensures Behind(p, decls, a, k, vars, next, e)
    ensures TokensAll(p.node(a, k, vars, next).code) == TokensAll(DeclareAt(decls, k)) + TokensAll(e.code)
    ensures p.node(a, k, vars, next).next == e.next
  {
    assert p.node(a, k, vars, next) == Emit(a, k, decls, vars, next);
    e := EmitNode(a, k, decls, vars, next);
    TokensAppend(DeclareAt(decls, k), e.code);
  }

  lemma {:induction false} BehindIsNode(p: Spec, decls: Declarations, a: Ast, k: nat, vars: seq<nat>, next: nat,
                                        e: Emitted)
    requires Specifies(p, decls) && !a.Null? && Behind(p, decls, a, k, vars, next, e)
    ensures e == EmitNode(a, k, decls, vars, next)
  {
    assert p.node(a, k, vars, next) == Emit(a, k, decls, vars, next);
    SamePrefix(DeclareAt(decls, k), e.code, EmitNode(a, k, decls, vars, next).code);
  }

  lemma {:induction false} SamePrefix(d: seq<CStmt>, s: seq<CStmt>, t: seq<CStmt>)
    requires d + s == d + t
    ensures s == t
  {
    assert (d + s)[|d|..] == s && (d + t)[|d|..] == t;
  }

  lemma {:induction false} NullPrintsNothing(p: Spec, decls: Declarations, k: nat, vars: seq<nat>, next: nat)
    requires Specifies(p, decls)
    ensures p.node(Null, k, vars, next) == Emitted([], next)
  {
    assert p.node(Null, k, vars, next) == Emit(Null, k, decls, vars, next);
  }

  // The shape of every kind of node, in terms of the parts.

  lemma {:induction false} IfShape(p: Spec, decls: Declarations, a: Ast, k: nat, vars: seq<nat>, next: nat, e: Emitted)
    requires Specifies(p, decls) && a.If? && Behind(p, decls, a, k, vars, next, e)
    ensures var t := p.node(a.thn, k + 1, vars, next);
            var f := p.node(a.els, k + 1 + Size(a.thn), vars, t.next);
            && e.next == f.next
            && e.code == p.condition(a.cond)
                         + [CIf(OfGhast(a.cond.expr), CCompound(t.code),
                                if a.els.Null? then NoElse else Else(CCompound(f.code)))]
  {
    BehindIsNode(p, decls, a, k, vars, next, e);
    var t := Emit(a.thn, k + 1, decls, vars, next);
    assert p.node(a.thn, k + 1, vars, next) == t;
    assert p.node(a.els, k + 1 + Size(a.thn), vars, t.next) == Emit(a.els, k + 1 + Size(a.thn), decls, vars, t.next);
  }

  lemma {:induction false} LoopShape(p: Spec, decls: Declarations, a: Ast, k: nat, vars: seq<nat>, next: nat,
                                     e: Emitted)
    requires Specifies(p, decls) && a.Scs? && Behind(p, decls, a, k, vars, next, e)
    ensures var b := p.node(a.body, k + 1, vars, next);
            && e.next == b.next
            && e.code == match a.kind
                         case WhileTrue => [CWhile(TrueLiteral, CCompound(b.code))]
                         case While(c) => p.condition(c) + [CWhile(OfGhast(c.expr), CCompound(b.code))]
                         case DoWhile(c) => [CDoWhile(CCompound(b.code + p.condition(c)), OfGhast(c.expr))]
  {
    BehindIsNode(p, decls, a, k, vars, next, e);
    assert p.node(a.body, k + 1, vars, next) == Emit(a.body, k + 1, decls, vars, next);
  }

  lemma {:induction false} SeqShape(p: Spec, decls: Declarations, a: Ast, k: nat, vars: seq<nat>, next: nat, e: Emitted)
    requires Specifies(p, decls) && a.Seq? && Behind(p, decls, a, k, vars, next, e)
    ensures e == p.nodes(a.nodes, k + 1, vars, next)
  {
    BehindIsNode(p, decls, a, k, vars, next, e);
    assert p.nodes(a.nodes, k + 1, vars, next) == EmitSeq(a.nodes, k + 1, decls, vars, next);
  }

  function DeclaredVar(needed: bool, v: nat): seq<CStmt> {
    if needed then [CDeclareFalse(v)] else []
  }

  function Dispatch(needed: bool, v: nat): seq<CStmt> {
    if needed then [CIf(StateVar(v), CBreak, NoElse)] else []
  }

  lemma {:induction false} SwitchShape(p: Spec, decls: Declarations, a: Ast, k: nat, vars: seq<nat>, next: nat,
                                       e: Emitted)
    requires Specifies(p, decls) && a.Switch? && Behind(p, decls, a, k, vars, next, e)
    ensures var vars1, next1 := if a.needsVar then vars + [next] else vars, if a.needsVar then next + 1 else next;
            var l := p.cases(a.cases, k + 1, vars1, next1);
            var d := p.default(a.cases, k + 1, vars1, l.next);
            && e.next == d.next
            && e.code == DeclaredVar(a.needsVar, next) + EmitScrutinee(a.on)
                         + [CSwitch(a.on, l.groups + d.groups)]
                         + Dispatch(a.needsDispatcher, Top(vars1))
  {
    BehindIsNode(p, decls, a, k, vars, next, e);
    var vars1, next1 := if a.needsVar then vars + [next] else vars, if a.needsVar then next + 1 else next;
    var l := EmitCases(a.cases, k + 1, decls, vars1, next1);
    assert p.cases(a.cases, k + 1, vars1, next1) == l;
    assert p.default(a.cases, k + 1, vars1, l.next) == EmitDefault(a.cases, k + 1, decls, vars1, l.next);
  }

  lemma {:induction false} NodesStep(p: Spec, decls: Declarations, s: seq<Ast>, k: nat, vars: seq<nat>, next: nat)
    requires Specifies(p, decls)
    ensures s == [] ==> p.nodes(s, k, vars, next) == Emitted([], next)
    ensures s != [] ==> (
              var first := p.node(s[0], k, vars, next);
              var rest := p.nodes(s[1..], k + Size(s[0]), vars, first.next);
              var whole := p.nodes(s, k, vars, next);
              TokensAll(whole.code) == TokensAll(first.code) + TokensAll(rest.code) && whole.next == rest.next)
  {
    var whole := EmitSeq(s, k, decls, vars, next);
    assert p.nodes(s, k, vars, next) == whole;
    if s != [] {
      var first := Emit(s[0], k, decls, vars, next);
      assert p.node(s[0], k, vars, next) == first;
      var rest := EmitSeq(s[1..], k + Size(s[0]), decls, vars, first.next);
      assert p.nodes(s[1..], k + Size(s[0]), vars, first.next) == rest;
      TokensAppend(first.code, rest.code);
    }
  }

  /** What one case prints among the labelled ones. */
  ghost function CaseTokens(p: Spec, c: Case, k: nat, vars: seq<nat>, next: nat): seq<Token> {
    if c.labels == [] then []
    else LabelTokens(c.labels) + TokensAll([CCompound(p.node(c.body, k, vars, next).code), CBreak])
  }

  ghost function CaseNext(p: Spec, c: Case, k: nat, vars: seq<nat>, next: nat): nat {
    if c.labels == [] then next else p.node(c.body, k, vars, next).next
  }

  lemma {:induction false} CasesStep(p: Spec, decls: Declarations, c: seq<Case>, k: nat, vars: seq<nat>, next: nat)
    requires Specifies(p, decls)
    ensures c == [] ==> p.cases(c, k, vars, next) == EmittedGroups([], next)
    ensures c != [] ==> (
              var whole := p.cases(c, k, vars, next);
              var rest := p.cases(c[1..], k + Size(c[0].body), vars, CaseNext(p, c[0], k, vars, next));
              && whole.next == rest.next
              && GroupTokens(whole.groups) == CaseTokens(p, c[0], k, vars, next) + GroupTokens(rest.groups))
  {
    var whole := EmitCases(c, k, decls, vars, next);
    assert p.cases(c, k, vars, next) == whole;
    if c != [] {
      var at := k + Size(c[0].body);
      if c[0].labels == [] {
        assert p.cases(c[1..], at, vars, next) == EmitCases(c[1..], at, decls, vars, next);
      } else {
        var first := Emit(c[0].body, k, decls, vars, next);
        assert p.node(c[0].body, k, vars, next) == first;
        var rest := EmitCases(c[1..], at, decls, vars, first.next);
        assert p.cases(c[1..], at, vars, first.next) == rest;
        var g := Group(c[0].labels, false, [CCompound(first.code), CBreak]);
        assert whole == EmittedGroups([g] + rest.groups, rest.next);
        GroupCons(g, rest.groups);
        assert HeadTokens(g) == LabelTokens(c[0].labels);
      }
    }
  }

  lemma {:induction false} DefaultStep(p: Spec, decls: Declarations, c: seq<Case>, k: nat, vars: seq<nat>, next: nat)
    requires Specifies(p, decls)
    ensures c == [] ==> p.default(c, k, vars, next) == EmittedGroups([], next)
    ensures c != [] ==> (
              var whole := p.default(c, k, vars, next);
              if c[0].labels != [] then whole == p.default(c[1..], k + Size(c[0].body), vars, next)
              else
                var body := p.node(c[0].body, k, vars, next);
                && whole.next == body.next
                && GroupTokens(whole.groups) == [TDefault] + TokensAll([CCompound(body.code), CBreak]))
  {
    assert p.default(c, k, vars, next) == EmitDefault(c, k, decls, vars, next);
    if c != [] {
      var at := k + Size(c[0].body);
      if c[0].labels != [] {
        assert p.default(c[1..], at, vars, next) == EmitDefault(c[1..], at, decls, vars, next);
      } else {
        var body := Emit(c[0].body, k, decls, vars, next);
        assert p.node(c[0].body, k, vars, next) == body;
        GroupCons(Group([], true, [CCompound(body.code), CBreak]), []);
      }
    }
  }

  // The tokens of every shape.

  lemma {:induction false} GroupCons(g: Group, rest: seq<Group>)
    ensures GroupTokens([g] + rest) == HeadTokens(g) + TokensAll(g.stmts) + GroupTokens(rest)
  {
    assert ([g] + rest)[1..] == rest;
  }

  lemma {:induction false} GroupBodyTokens(code: seq<CStmt>)
    ensures TokensAll([CCompound(code), CBreak]) == [TOpen] + TokensAll(code) + [TClose] + [TBreak]
  {
    TokensAppend([CCompound(code)], [CBreak]);
    TokensOne(CCompound(code));
    TokensOne(CBreak);
    assert [CCompound(code)] + [CBreak] == [CCompound(code), CBreak];
  }

  /** A statement in braces. */
  function Braces(code: seq<CStmt>): seq<Token> {
    Tokens(CCompound(code))
  }

  lemma {:induction false} IfTokens(out: seq<Token>, before: seq<CStmt>, cond: CExpr, t: seq<CStmt>)
    ensures out + TokensAll(before + [CIf(cond, CCompound(t), NoElse)])
         == out + TokensAll(before) + [TIf(cond)] + Braces(t)
  {
    TokensAppend(before, [CIf(cond, CCompound(t), NoElse)]);
    TokensOne(CIf(cond, CCompound(t), NoElse));
    assert Tokens(CIf(cond, CCompound(t), NoElse)) == [TIf(cond)] + Braces(t);
  }

  lemma {:induction false} IfElseTokens(out: seq<Token>, before: seq<CStmt>, cond: CExpr, t: seq<CStmt>, f: seq<CStmt>)
    ensures out + TokensAll(before + [CIf(cond, CCompound(t), Else(CCompound(f)))])
         == out + TokensAll(before) + [TIf(cond)] + Braces(t) + [TElse] + Braces(f)
  {
    var s := CIf(cond, CCompound(t), Else(CCompound(f)));
    TokensAppend(before, [s]);
    TokensOne(s);
    assert Tokens(s) == [TIf(cond)] + Braces(t) + ([TElse] + Braces(f));
    FiveAssoc(out, TokensAll(before), [TIf(cond)], Braces(t), [TElse] + Braces(f));
  }

  lemma {:induction false} WhileTokens(out: seq<Token>, before: seq<CStmt>, cond: CExpr, b: seq<CStmt>)
    ensures out + TokensAll(before + [CWhile(cond, CCompound(b))])
         == out + TokensAll(before) + [TWhile(cond)] + Braces(b)
    ensures out + TokensAll([CWhile(cond, CCompound(b))]) == out + [TWhile(cond)] + Braces(b)
  {
    var s := CWhile(cond, CCompound(b));
    TokensOne(s);
    TokensAppend(before, [s]);
    assert Tokens(s) == [TWhile(cond)] + Braces(b);
    TwoAssoc(out, [TWhile(cond)], Braces(b));
    TwoAssoc(out, TokensAll(before), Tokens(s));
    TwoAssoc(out + TokensAll(before), [TWhile(cond)], Braces(b));
  }

  lemma {:induction false} TwoAssoc(out: seq<Token>, a: seq<Token>, b: seq<Token>)
    ensures out + (a + b) == out + a + b
  {
  }

  lemma {:induction false} DoWhileTokens(out: seq<Token>, cond: CExpr, b: seq<CStmt>, after: seq<CStmt>)
    ensures out + TokensAll([CDoWhile(CCompound(b + after), cond)])
         == out + [TDo] + [TOpen] + TokensAll(b) + TokensAll(after) + [TClose] + [TWhileEnd(cond)]
  {
    TokensOne(CDoWhile(CCompound(b + after), cond));
    TokensAppend(b, after);
  }

  lemma {:induction false} FourTokens(a: seq<CStmt>, b: seq<CStmt>, s: CStmt, c: seq<CStmt>)
    ensures TokensAll(a + b + [s] + c) == TokensAll(a) + TokensAll(b) + Tokens(s) + TokensAll(c)
  {
    TokensOne(s);
    TokensAppend(a, b);
    TokensAppend(a + b, [s]);
    TokensAppend(a + b + [s], c);
  }

  lemma {:induction false} SwitchTokens(out: seq<Token>, a: seq<CStmt>, b: seq<CStmt>, on: Scrutinee, l: seq<Group>,
                                        d: seq<Group>, c: seq<CStmt>)
    ensures out + TokensAll(a + b + [CSwitch(on, l + d)] + c)
         == out + TokensAll(a) + TokensAll(b) + SwitchBody(on, l, d) + TokensAll(c)
  {
    var s := CSwitch(on, l + d);
    FourTokens(a, b, s, c);
    GroupTokensAppend(l, d);
    assert Tokens(s) == SwitchBody(on, l, d);
    FiveAssoc(out, TokensAll(a), TokensAll(b), Tokens(s), TokensAll(c));
  }

  function SwitchBody(on: Scrutinee, l: seq<Group>, d: seq<Group>): seq<Token> {
    [TSwitch(on), TOpen] + (GroupTokens(l) + GroupTokens(d)) + [TClose]
  }

  lemma {:induction false} SwitchAssoc(out: seq<Token>, s: Token, o: Token, l: seq<Token>, d: seq<Token>, c: Token)
    ensures out + ([s, o] + (l + d) + [c]) == out + [s] + [o] + l + d + [c]
  {
  }

  lemma {:induction false} FiveAssoc(out: seq<Token>, a: seq<Token>, b: seq<Token>, s: seq<Token>, c: seq<Token>)
    ensures out + (a + b + s + c) == out + a + b + s + c
  {
  }

  lemma {:induction false} AroundSwitchTokens(needsVar: bool, v: nat, on: Scrutinee, needsDispatcher: bool, top: nat)
    ensures TokensAll(DeclaredVar(needsVar, v)) == if needsVar then [TDeclareFalse(v)] else []
    ensures TokensAll(EmitScrutinee(on)) == if on.OfValue? && !on.weaved then [TRun(on.bb, Jumps)] else []
    ensures TokensAll(Dispatch(needsDispatcher, top)) == if needsDispatcher then [TIf(StateVar(top))] + [TBreak] else []
  {
    TokensOne(CDeclareFalse(v));
    if on.OfValue? { TokensOne(CRun(on.bb, Jumps)); }
    TokensOne(CIf(StateVar(top), CBreak, NoElse));
  }

  lemma {:induction false} ContinueTokens(before: seq<CStmt>, implicit: bool)
    ensures TokensAll(before + if implicit then [] else [CContinue])
         == TokensAll(before) + if implicit then [] else [TContinue]
  {
    TokensAppend(before, if implicit then [] else [CContinue]);
    TokensOne(CContinue);
  }

  lemma {:induction false} BreakTokens(fromSwitch: bool, v: nat)
    ensures TokensAll((if fromSwitch then [CAssignTrue(v)] else []) + [CBreak])
         == (if fromSwitch then [TAssignTrue(v)] else []) + [TBreak]
  {
    TokensAppend(if fromSwitch then [CAssignTrue(v)] else [], [CBreak]);
    TokensOne(CAssignTrue(v));
    TokensOne(CBreak);
  }

  lemma {:induction false} RunAllAppend(s: seq<Block>, t: seq<Block>)
    ensures TokensAll(RunAll(s + t)) == TokensAll(RunAll(s)) + TokensAll(RunAll(t))
    decreases |s|
  {
    if s == [] {
      assert s + t == t;
    } else {
      assert (s + t)[0] == s[0] && (s + t)[1..] == s[1..] + t;
      RunAllAppend(s[1..], t);
    }
  }

  /** The blocks of a condition, as they are printed. */
  function Printed(e: Expr, emitBB: bool): seq<Token> {
    TokensAll(if emitBB then RunAll(Blocks(e)) else [])
  }

  lemma {:induction false} OnePrinted(e: Expr, emitBB: bool)
    requires e.ValueCompare? || e.Atomic?
    ensures Printed(e, emitBB) == if emitBB then [TRun(e.bb, Jumps)] else []
  {
    assert RunAll([e.bb]) == [CRun(e.bb, Jumps)];
    TokensOne(CRun(e.bb, Jumps));
  }

  lemma {:induction false} BothPrinted(out: seq<Token>, e: Expr, emitBB: bool)
    requires e.And? || e.Or?
    ensures out + Printed(e.l, emitBB) + Printed(e.r, emitBB) == out + Printed(e, emitBB)
  {
    RunAllAppend(Blocks(e.l), Blocks(e.r));
    TwoAssoc(out, Printed(e.l, emitBB), Printed(e.r, emitBB));
  }

  // ----- The printer -----

  class CCodeGenerator {
    const variablesToDeclare: Declarations
    var output: seq<Token>
    var switchStateVars: seq<nat>
    var nextStateVar: nat

    constructor (decls: Declarations)
      ensures variablesToDeclare == decls && output == [] && switchStateVars == [] && nextStateVar == 0
    {
      variablesToDeclare, output, switchStateVars, nextStateVar := decls, [], [], 0;
    }

    method Append(t: Token)
      modifies this`output
      ensures output == old(output) + [t]
    {
      output := output + [t];
    }

    method EmitBasicBlock(bb: Block, end: BlockEnd, emitReturn: bool)
      modifies this`output
      ensures output == old(output) + [TRun(bb, if end.Returns? && !emitReturn then Jumps else end)]
    {
      Append(TRun(bb, if end.Returns? && !emitReturn then Jumps else end));
    }

    /** Prints the blocks of a condition, eagerly, and returns the expression. */
    method BuildCondition(e: Expr, emitBB: bool) returns (r: CExpr)
      modifies this`output
      ensures r == OfGhast(e)
      ensures output == old(output) + Printed(e, emitBB)
      decreases e
    {
      r := OfGhast(e);
      match e
      case ValueCompare(bb, _) =>
        OnePrinted(e, emitBB);
        if emitBB { EmitBasicBlock(bb, Jumps, true); }
      case LoopStateCompare(_) =>
      case Atomic(bb) =>
        OnePrinted(e, emitBB);
        if emitBB { EmitBasicBlock(bb, Jumps, true); }
      case Not(n) =>
        var _ := BuildCondition(n, emitBB);
      case And(x, y) =>
        var _ := BuildCondition(x, emitBB);
        var _ := BuildCondition(y, emitBB);
        BothPrinted(old(output), e, emitBB);
      case Or(x, y) =>
        var _ := BuildCondition(x, emitBB);
        var _ := BuildCondition(y, emitBB);
        BothPrinted(old(output), e, emitBB);
    }

    /** The condition of an `if` or of a loop. */
    method MakeCondition(c: Condition, ghost p: Spec) returns (r: CExpr)
      requires Specifies(p, variablesToDeclare)
      modifies this`output
      ensures r == OfGhast(c.expr)
      ensures output == old(output) + TokensAll(p.condition(c))
    {
      assert p.condition(c) == EmitCondition(c);
      r := BuildCondition(c.expr, !c.weaved);
    }

    method DeclareVariables(names: seq<nat>)
      modifies this`output
      ensures output == old(output) + TokensAll(Declare(names))
    {
      for i := 0 to |names|
        invariant output + TokensAll(Declare(names[i..])) == old(output) + TokensAll(Declare(names))
      {
        assert names[i..][0] == names[i] && names[i..][1..] == names[i + 1..];
        Append(TDeclare(names[i]));
      }
    }

    /** The effect of printing `e`: the stack of state variables is left as it was. */
    twostate predicate Prints(e: Emitted)
      reads this
    {
      output == old(output) + TokensAll(e.code) && switchStateVars == old(switchStateVars) && nextStateVar == e.next
    }

    /** Prints a node behind the declarations that belong in front of it. */
    method EmitGHASTNode(a: Ast, k: nat, ghost p: Spec)
      requires MayEmit(a, |switchStateVars|) && Specifies(p, variablesToDeclare)
      modifies this
      ensures Prints(p.node(a, k, old(switchStateVars), old(nextStateVar)))
      decreases a, 2
    {
      if a.Null? {
        NullPrintsNothing(p, variablesToDeclare, k, switchStateVars, nextStateVar);
        return;
      }
      ghost var e := BehindDeclarations(p, variablesToDeclare, a, k, switchStateVars, nextStateVar);
      if k in variablesToDeclare {
        DeclareVariables(variablesToDeclare[k]);
      }
      EmitKind(a, k, p, e);
    }

    method EmitKind(a: Ast, k: nat, ghost p: Spec, ghost e: Emitted)
      requires MayEmit(a, |switchStateVars|) && Specifies(p, variablesToDeclare) && !a.Null?
      requires Behind(p, variablesToDeclare, a, k, switchStateVars, nextStateVar, e)
      modifies this
      ensures Prints(e)
      decreases a, 1
    {
      if a.If? {
        EmitIf(a, k, p, e);
      } else if a.Scs? {
        EmitLoop(a, k, p, e);
      } else if a.Seq? {
        EmitSequence(a, k, p, e);
      } else if a.Switch? {
        EmitSwitch(a, k, p, e);
      } else {
        EmitLeaf(a, k, p, e);
      }
    }

    method EmitLeaf(a: Ast, k: nat, ghost p: Spec, ghost e: Emitted)
      requires MayEmit(a, |switchStateVars|) && Specifies(p, variablesToDeclare)
      requires a.Code? || a.SwitchBreak? || a.Set? || a.Continue? || a.Break?
      requires Behind(p, variablesToDeclare, a, k, switchStateVars, nextStateVar, e)
      modifies this
      ensures Prints(e)
    {
      BehindIsNode(p, variablesToDeclare, a, k, switchStateVars, nextStateVar, e);
      match a
      case Code(bb, end, implicitReturn) =>
        EmitBasicBlock(bb, end, !implicitReturn);
        TokensOne(CRun(bb, if end.Returns? && implicitReturn then Jumps else end));
      case SwitchBreak =>
        Append(TBreak);
        TokensOne(CBreak);
      case Set(value) =>
        Append(TSetState(value));
        TokensOne(CSetState(value));
      case Continue(computation, implicit) =>
        if computation.Computes? {
          var _ := MakeCondition(computation.cond, p);
        }
        if !implicit { Append(TContinue); }
        if computation.Computes? { assert p.condition(computation.cond) == EmitCondition(computation.cond); }
        ContinueTokens(if computation.Computes? then EmitCondition(computation.cond) else [], implicit);
      case Break(fromSwitch) =>
        if fromSwitch {
          assert switchStateVars != [];
          Append(TAssignTrue(switchStateVars[|switchStateVars| - 1]));
        }
        Append(TBreak);
        BreakTokens(fromSwitch, Top(switchStateVars));
    }

    /** A node in braces. */
    method EmitBraces(a: Ast, k: nat, ghost p: Spec)
      requires MayEmit(a, |switchStateVars|) && Specifies(p, variablesToDeclare)
      modifies this
      ensures var e := p.node(a, k, old(switchStateVars), old(nextStateVar));
              && output == old(output) + Braces(e.code)
              && switchStateVars == old(switchStateVars) && nextStateVar == e.next
      decreases a, 3
    {
      Append(TOpen);
      EmitGHASTNode(a, k, p);
      Append(TClose);
    }

    method EmitIf(a: Ast, k: nat, ghost p: Spec, ghost e: Emitted)
      requires MayEmit(a, |switchStateVars|) && Specifies(p, variablesToDeclare) && a.If?
      requires Behind(p, variablesToDeclare, a, k, switchStateVars, nextStateVar, e)
      modifies this
      ensures Prints(e)
      decreases a, 0
    {
      var thenAt, elseAt := k + 1, k + 1 + Size(a.thn);
      ghost var t := p.node(a.thn, thenAt, switchStateVars, nextStateVar);
      ghost var f := p.node(a.els, elseAt, switchStateVars, t.next);
      IfShape(p, variablesToDeclare, a, k, switchStateVars, nextStateVar, e);
      var cond := MakeCondition(a.cond, p);
      Append(TIf(cond));
      EmitBraces(a.thn, thenAt, p);
      if a.els.Null? {
        NullPrintsNothing(p, variablesToDeclare, elseAt, switchStateVars, t.next);
        IfTokens(old(output), p.condition(a.cond), cond, t.code);
      } else {
        IfElseTokens(old(output), p.condition(a.cond), cond, t.code, f.code);
        Append(TElse);
        EmitBraces(a.els, elseAt, p);
      }
    }

    method EmitLoop(a: Ast, k: nat, ghost p: Spec, ghost e: Emitted)
      requires MayEmit(a, |switchStateVars|) && Specifies(p, variablesToDeclare) && a.Scs?
      requires Behind(p, variablesToDeclare, a, k, switchStateVars, nextStateVar, e)
      modifies this
      ensures Prints(e)
      decreases a, 0, 1
    {
      LoopShape(p, variablesToDeclare, a, k, switchStateVars, nextStateVar, e);
      if a.kind.DoWhile? {
        EmitDoWhile(a, k, p);
      } else {
        var cond := TrueLiteral;
        if a.kind.While? {
          cond := MakeCondition(a.kind.related, p);
        }
        WhileTokens(old(output), if a.kind.While? then p.condition(a.kind.related) else [], cond,
                    p.node(a.body, k + 1, switchStateVars, nextStateVar).code);
        assert !a.body.Null?;
        Append(TWhile(cond));
        EmitBraces(a.body, k + 1, p);
      }
    }

    /** The condition of a do-while loop is computed before its body is closed. */
    method EmitDoWhile(a: Ast, k: nat, ghost p: Spec)
      requires MayEmit(a, |switchStateVars|) && Specifies(p, variablesToDeclare) && a.Scs? && a.kind.DoWhile?
      modifies this
      ensures var b, c := p.node(a.body, k + 1, old(switchStateVars), old(nextStateVar)), a.kind.related;
              Prints(Emitted([CDoWhile(CCompound(b.code + p.condition(c)), OfGhast(c.expr))], b.next))
      decreases a, 0, 0
    {
      DoWhileTokens(output, OfGhast(a.kind.related.expr), p.node(a.body, k + 1, switchStateVars, nextStateVar).code,
                    p.condition(a.kind.related));
      Append(TDo);
      Append(TOpen);
      EmitGHASTNode(a.body, k + 1, p);
      var cond := MakeCondition(a.kind.related, p);
      Append(TClose);
      Append(TWhileEnd(cond));
    }

    method EmitSequence(a: Ast, k: nat, ghost p: Spec, ghost e: Emitted)
      requires MayEmit(a, |switchStateVars|) && Specifies(p, variablesToDeclare) && a.Seq?
      requires Behind(p, variablesToDeclare, a, k, switchStateVars, nextStateVar, e)
      modifies this
      ensures Prints(e)
      decreases a, 0
    {
      SeqShape(p, variablesToDeclare, a, k, switchStateVars, nextStateVar, e);
      var at: nat := k + 1;
      var i := 0;
      assert a.nodes[0..] == a.nodes;
      while i < |a.nodes|
        invariant 0 <= i <= |a.nodes| && switchStateVars == old(switchStateVars)
        invariant var rest := p.nodes(a.nodes[i..], at, switchStateVars, nextStateVar);
                  (output + TokensAll(rest.code) == old(output) + TokensAll(e.code) && rest.next == e.next)
      {
        assert a.nodes[i..][0] == a.nodes[i] && a.nodes[i..][1..] == a.nodes[i + 1..];
        NodesStep(p, variablesToDeclare, a.nodes[i..], at, switchStateVars, nextStateVar);
        ghost var first := p.node(a.nodes[i], at, switchStateVars, nextStateVar);
        TwoAssoc(output, TokensAll(first.code),
                 TokensAll(p.nodes(a.nodes[i + 1..], at + Size(a.nodes[i]), switchStateVars, first.next).code));
        EmitGHASTNode(a.nodes[i], at, p);
        at := at + Size(a.nodes[i]);
        i := i + 1;
      }
      NodesStep(p, variablesToDeclare, a.nodes[i..], at, switchStateVars, nextStateVar);
    }

    method EmitLabels(labels: seq<nat>)
      modifies this`output
      ensures output == old(output) + LabelTokens(labels)
    {
      for i := 0 to |labels|
        invariant output + LabelTokens(labels[i..]) == old(output) + LabelTokens(labels)
      {
        assert labels[i..][0] == labels[i] && labels[i..][1..] == labels[i + 1..];
        Append(TCase(labels[i]));
      }
    }

    /** The body of a case in braces, and the `break` behind it. */
    method EmitCaseBody(body: Ast, k: nat, ghost p: Spec)
      requires MayEmit(body, |switchStateVars|) && Specifies(p, variablesToDeclare)
      modifies this
      ensures var e := p.node(body, k, old(switchStateVars), old(nextStateVar));
              Prints(Emitted([CCompound(e.code), CBreak], e.next))
      decreases body, 3
    {
      GroupBodyTokens(p.node(body, k, switchStateVars, nextStateVar).code);
      Append(TOpen);
      EmitGHASTNode(body, k, p);
      Append(TClose);
      Append(TBreak);
    }

    /** One case among the labelled ones; a default case is skipped. */
    method EmitLabelledCase(c: Case, k: nat, ghost p: Spec)
      requires MayEmit(c.body, |switchStateVars|) && Specifies(p, variablesToDeclare)
      modifies this
      ensures output == old(output) + CaseTokens(p, c, k, old(switchStateVars), old(nextStateVar))
      ensures switchStateVars == old(switchStateVars)
      ensures nextStateVar == CaseNext(p, c, k, old(switchStateVars), old(nextStateVar))
      decreases c
    {
      if c.labels != [] {
        TwoAssoc(output, LabelTokens(c.labels),
                 TokensAll([CCompound(p.node(c.body, k, switchStateVars, nextStateVar).code), CBreak]));
        EmitLabels(c.labels);
        EmitCaseBody(c.body, k, p);
      }
    }

    /** The labelled cases, in order. */
    method EmitLabelledCases(cases: seq<Case>, k: nat, ghost p: Spec)
      requires forall i :: 0 <= i < |cases| ==> MayEmit(cases[i].body, |switchStateVars|)
      requires Specifies(p, variablesToDeclare)
      modifies this
      ensures var e := p.cases(cases, k, old(switchStateVars), old(nextStateVar));
              && output == old(output) + GroupTokens(e.groups)
              && switchStateVars == old(switchStateVars) && nextStateVar == e.next
      decreases cases, 0
    {
      ghost var vars := switchStateVars;
      ghost var e := p.cases(cases, k, vars, nextStateVar);
      ghost var all := output + GroupTokens(e.groups);
      var at: nat := k;
      var i := 0;
      assert cases[0..] == cases;
      while i < |cases|
        invariant 0 <= i <= |cases| && switchStateVars == vars
        invariant output + GroupTokens(p.cases(cases[i..], at, vars, nextStateVar).groups) == all
        invariant p.cases(cases[i..], at, vars, nextStateVar).next == e.next
      {
        assert cases[i..][0] == cases[i] && cases[i..][1..] == cases[i + 1..];
        CasesStep(p, variablesToDeclare, cases[i..], at, vars, nextStateVar);
        TwoAssoc(output, CaseTokens(p, cases[i], at, vars, nextStateVar),
                 GroupTokens(p.cases(cases[i + 1..], at + Size(cases[i].body), vars,
                                     CaseNext(p, cases[i], at, vars, nextStateVar)).groups));
        EmitLabelledCase(cases[i], at, p);
        at := at + Size(cases[i].body);
        i := i + 1;
      }
      CasesStep(p, variablesToDeclare, cases[i..], at, vars, nextStateVar);
    }

    method FindDefault(cases: seq<Case>, k: nat, ghost p: Spec) returns (i: nat, at: nat)
      requires Specifies(p, variablesToDeclare)
      ensures i <= |cases| && (i < |cases| ==> cases[i].labels == [])
      ensures p.default(cases[i..], at, switchStateVars, nextStateVar)
           == p.default(cases, k, switchStateVars, nextStateVar)
    {
      i, at := 0, k;
      assert cases[0..] == cases;
      while i < |cases| && cases[i].labels != []
        invariant 0 <= i <= |cases|
        invariant p.default(cases[i..], at, switchStateVars, nextStateVar)
               == p.default(cases, k, switchStateVars, nextStateVar)
      {
        assert cases[i..][0] == cases[i] && cases[i..][1..] == cases[i + 1..];
        DefaultStep(p, variablesToDeclare, cases[i..], at, switchStateVars, nextStateVar);
        at := at + Size(cases[i].body);
        i := i + 1;
      }
    }

    /** The default case, if there is one. */
    method EmitDefaultCase(cases: seq<Case>, k: nat, ghost p: Spec)
      requires forall i :: 0 <= i < |cases| ==> MayEmit(cases[i].body, |switchStateVars|)
      requires Specifies(p, variablesToDeclare)
      modifies this
      ensures var e := p.default(cases, k, old(switchStateVars), old(nextStateVar));
              && output == old(output) + GroupTokens(e.groups)
              && switchStateVars == old(switchStateVars) && nextStateVar == e.next
      decreases cases, 0
    {
      var i, at := FindDefault(cases, k, p);
      DefaultStep(p, variablesToDeclare, cases[i..], at, switchStateVars, nextStateVar);
      if i < |cases| {
        assert cases[i..][0] == cases[i];
        TwoAssoc(output, [TDefault],
                 TokensAll([CCompound(p.node(cases[i].body, at, switchStateVars, nextStateVar).code), CBreak]));
        Append(TDefault);
        EmitCaseBody(cases[i].body, at, p);
      }
    }

    /** The declaration of a state variable, and the block that computes the scrutinee. */
    method EmitSwitchHead(a: Ast)
      requires a.Switch?
      modifies this
      ensures output
           == old(output) + TokensAll(DeclaredVar(a.needsVar, old(nextStateVar))) + TokensAll(EmitScrutinee(a.on))
      ensures switchStateVars == if a.needsVar then old(switchStateVars) + [old(nextStateVar)] else old(switchStateVars)
      ensures nextStateVar == if a.needsVar then old(nextStateVar) + 1 else old(nextStateVar)
    {
      AroundSwitchTokens(a.needsVar, nextStateVar, a.on, false, 0);
      if a.needsVar {
        switchStateVars := switchStateVars + [nextStateVar];
        Append(TDeclareFalse(nextStateVar));
        nextStateVar := nextStateVar + 1;
      }
      if a.on.OfValue? && !a.on.weaved {
        EmitBasicBlock(a.on.bb, Jumps, true);
      }
    }

    /** The dispatcher behind the switch reads the variable on top of the stack. */
    method EmitDispatcher(a: Ast)
      requires a.Switch? && (a.needsDispatcher ==> switchStateVars != [])
      modifies this`output
      ensures output == old(output) + TokensAll(Dispatch(a.needsDispatcher, Top(switchStateVars)))
    {
      AroundSwitchTokens(false, 0, a.on, a.needsDispatcher, Top(switchStateVars));
      if a.needsDispatcher {
        Append(TIf(StateVar(switchStateVars[|switchStateVars| - 1])));
        Append(TBreak);
      }
    }

    /** The cases in braces. */
    method EmitSwitchCases(a: Ast, k: nat, ghost p: Spec)
      requires Specifies(p, variablesToDeclare) && a.Switch?
      requires forall i :: 0 <= i < |a.cases| ==> MayEmit(a.cases[i].body, |switchStateVars|)
      modifies this
      ensures var l := p.cases(a.cases, k + 1, old(switchStateVars), old(nextStateVar));
              var d := p.default(a.cases, k + 1, old(switchStateVars), l.next);
              && output == old(output) + SwitchBody(a.on, l.groups, d.groups)
              && switchStateVars == old(switchStateVars) && nextStateVar == d.next
      decreases a.cases, 1
    {
      ghost var l := p.cases(a.cases, k + 1, switchStateVars, nextStateVar);
      ghost var d := p.default(a.cases, k + 1, switchStateVars, l.next);
      SwitchAssoc(output, TSwitch(a.on), TOpen, GroupTokens(l.groups), GroupTokens(d.groups), TClose);
      Append(TSwitch(a.on));
      Append(TOpen);
      EmitLabelledCases(a.cases, k + 1, p);
      EmitDefaultCase(a.cases, k + 1, p);
      Append(TClose);
    }

    method EmitSwitch(a: Ast, k: nat, ghost p: Spec, ghost e: Emitted)
      requires MayEmit(a, |switchStateVars|) && Specifies(p, variablesToDeclare) && a.Switch?
      requires Behind(p, variablesToDeclare, a, k, switchStateVars, nextStateVar, e)
      modifies this
      ensures Prints(e)
      decreases a, 0
    {
      SwitchShape(p, variablesToDeclare, a, k, switchStateVars, nextStateVar, e);
      EmitSwitchHead(a);
      ghost var l := p.cases(a.cases, k + 1, switchStateVars, nextStateVar);
      ghost var d := p.default(a.cases, k + 1, switchStateVars, l.next);
      SwitchTokens(old(output), DeclaredVar(a.needsVar, old(nextStateVar)), EmitScrutinee(a.on), a.on, l.groups,
                   d.groups, Dispatch(a.needsDispatcher, Top(switchStateVars)));
      EmitSwitchCases(a, k, p);
      EmitDispatcher(a);
      if a.needsVar {
        switchStateVars := switchStateVars[..|switchStateVars| - 1];
      }
    }
  }
}

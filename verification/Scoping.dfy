/** Lexical scoping of the printed C (section 6.2.1 of ISO/IEC 9899:2011), when every
    variable is declared in front of a node from which all its uses can be reached. */
module Scoping {
  import opened Ghast
  import opened CLang
  import opened Emission
  import opened ScopeTree
  import opened Alap

  // ----- Scoping of C -----

  predicate InScope(uses: Uses, ids: set<nat>, scope: set<nat>) {
    forall b :: b in ids ==> uses(b) <= scope
  }

  function ExprIds(e: CExpr): set<nat> {
    if e.OfGhast? then Ids(Blocks(e.e)) else {}
  }

  function ScrutineeIds(on: Scrutinee): set<nat> {
    if on.OfValue? then {on.bb.id} else {}
  }

  /** What a statement adds to the scope of the statements that follow it. */
  function Declares(s: CStmt): set<nat> {
    if s.CDeclare? then {s.name} else {}
  }

  function DeclaresAll(stmts: seq<CStmt>): set<nat> {
    if stmts == [] then {} else Declares(stmts[0]) + DeclaresAll(stmts[1..])
  }

  /** Every use of a variable is in the scope of a declaration of it. A compound
      statement ends the scope of what it declares; the test of a do-while loop is
      outside of the scope of its body. */
  predicate Scoped(uses: Uses, s: CStmt, scope: set<nat>) {
    match s
    case CRun(bb, _) => InScope(uses, {bb.id}, scope)
    case CIf(cond, thn, els) =>
      && InScope(uses, ExprIds(cond), scope) && Scoped(uses, thn, scope)
      && (els.Else? ==> Scoped(uses, els.s, scope))
    case CWhile(cond, body) => InScope(uses, ExprIds(cond), scope) && Scoped(uses, body, scope)
    case CDoWhile(body, cond) => InScope(uses, ExprIds(cond), scope) && Scoped(uses, body, scope)
    case CSwitch(on, groups) =>
      && InScope(uses, ScrutineeIds(on), scope)
      && (forall i :: 0 <= i < |groups| ==> ScopedAll(uses, groups[i].stmts, scope))
    case CCompound(stmts) => ScopedAll(uses, stmts, scope)
    case _ => true
  }

  predicate ScopedAll(uses: Uses, stmts: seq<CStmt>, scope: set<nat>) {
    stmts == [] ||
    (Scoped(uses, stmts[0], scope) && ScopedAll(uses, stmts[1..], scope + Declares(stmts[0])))
  }

  lemma {:induction false} MoreScope(uses: Uses, s: CStmt, scope: set<nat>, more: set<nat>)
    requires Scoped(uses, s, scope) && scope <= more
    ensures Scoped(uses, s, more)
    decreases s
  {
    match s
    case CIf(cond, thn, els) =>
      MoreScope(uses, thn, scope, more);
      if els.Else? { MoreScope(uses, els.s, scope, more); }
    case CWhile(cond, body) => MoreScope(uses, body, scope, more);
    case CDoWhile(body, cond) => MoreScope(uses, body, scope, more);
    case CSwitch(on, groups) =>
      forall i | 0 <= i < |groups| ensures ScopedAll(uses, groups[i].stmts, more) {
        MoreScopeAll(uses, groups[i].stmts, scope, more);
      }
    case CCompound(stmts) => MoreScopeAll(uses, stmts, scope, more);
    case _ =>
  }

  lemma {:induction false} MoreScopeAll(uses: Uses, stmts: seq<CStmt>, scope: set<nat>, more: set<nat>)
    requires ScopedAll(uses, stmts, scope) && scope <= more
    ensures ScopedAll(uses, stmts, more)
    decreases stmts
  {
    if stmts != [] {
      MoreScope(uses, stmts[0], scope, more);
      MoreScopeAll(uses, stmts[1..], scope + Declares(stmts[0]), more + Declares(stmts[0]));
    }
  }

  lemma {:induction false} ScopedAppend(uses: Uses, s: seq<CStmt>, t: seq<CStmt>, scope: set<nat>)
    ensures DeclaresAll(s + t) == DeclaresAll(s) + DeclaresAll(t)
    ensures ScopedAll(uses, s + t, scope)
       <==> ScopedAll(uses, s, scope) && ScopedAll(uses, t, scope + DeclaresAll(s))
    decreases |s|
  {
    if s == [] {
      assert s + t == t;
      assert scope + {} == scope;
    } else {
      assert (s + t)[0] == s[0] && (s + t)[1..] == s[1..] + t;
      ScopedAppend(uses, s[1..], t, scope + Declares(s[0]));
      assert scope + Declares(s[0]) + DeclaresAll(s[1..]) == scope + DeclaresAll(s);
    }
  }

  lemma {:induction false} ScopedCons(uses: Uses, s: CStmt, t: seq<CStmt>, scope: set<nat>)
    ensures ScopedAll(uses, [s] + t, scope) <==> Scoped(uses, s, scope) && ScopedAll(uses, t, scope + Declares(s))
    ensures DeclaresAll([s] + t) == Declares(s) + DeclaresAll(t)
  {
    assert ([s] + t)[1..] == t;
  }

  lemma {:induction false} ScopedOne(uses: Uses, s: CStmt, scope: set<nat>)
    ensures ScopedAll(uses, [s], scope) <==> Scoped(uses, s, scope)
    ensures DeclaresAll([s]) == Declares(s)
  {
    assert [s][1..] == [];
  }

  lemma {:induction false} DeclareIsScoped(uses: Uses, names: seq<nat>, scope: set<nat>)
    ensures ScopedAll(uses, Declare(names), scope)
    ensures DeclaresAll(Declare(names)) == set v | v in names
  {
    if names != [] {
      ScopedCons(uses, CDeclare(names[0]), Declare(names[1..]), scope);
      DeclareIsScoped(uses, names[1..], scope + {names[0]});
    }
  }

  lemma {:induction false} RunAllIsScoped(uses: Uses, bs: seq<Block>, scope: set<nat>)
    requires InScope(uses, Ids(bs), scope)
    ensures ScopedAll(uses, RunAll(bs), scope) && DeclaresAll(RunAll(bs)) == {}
  {
    if bs != [] {
      assert bs[0].id in Ids(bs);
      assert forall b :: b in bs[1..] ==> b in bs;
      assert Ids(bs[1..]) <= Ids(bs);
      assert scope + {} == scope;
      ScopedCons(uses, CRun(bs[0], Jumps), RunAll(bs[1..]), scope);
      RunAllIsScoped(uses, bs[1..], scope);
    }
  }

  // ----- Where the variables are declared -----

  /** Every variable that a node uses is in scope, or it is declared inside the
      subtree, at a node from which that node can be reached. */
  ghost predicate UsesArePlaced(a: Ast, k: nat, uses: Uses, place: map<nat, nat>, scope: set<nat>)
    requires Rooted(a, k)
  {
    forall p, v :: p in Pairs(a, k) && v in uses(p.0) && v !in scope ==> PlacedAbove(a, k, place, v, p.1)
  }

  predicate PlacedAbove(a: Ast, k: nat, place: map<nat, nat>, v: nat, n: nat)
    requires Rooted(a, k)
  {
    Inside(a, k, n) && v in place && Inside(a, k, place[v]) && Above(a, k, place[v], n)
  }

  /** The printer declares exactly the variables placed at each node. */
  predicate Lists(decls: Declarations, place: map<nat, nat>) {
    && (forall n, i :: n in decls && 0 <= i < |decls[n]| ==> decls[n][i] in place && place[decls[n][i]] == n)
    && (forall v :: v in place ==> place[v] in decls && v in decls[place[v]])
  }

  function Here(place: map<nat, nat>, k: nat): set<nat> {
    set v | v in place && place[v] == k
  }

  lemma {:induction false} DeclareAtIsScoped(uses: Uses, decls: Declarations, place: map<nat, nat>, k: nat,
                                             scope: set<nat>)
    requires Lists(decls, place)
    ensures ScopedAll(uses, DeclareAt(decls, k), scope) && DeclaresAll(DeclareAt(decls, k)) == Here(place, k)
  {
    if k in decls { DeclareIsScoped(uses, decls[k], scope); }
  }

  /** What the node itself uses is in scope once its own variables are declared. */
  lemma {:induction false} OwnUses(a: Ast, k: nat, uses: Uses, place: map<nat, nat>, scope: set<nat>)
    requires Rooted(a, k) && UsesArePlaced(a, k, uses, place, scope)
    ensures InScope(uses, NodeBlocks(a), scope + Here(place, k))
  {
    forall b, v | b in NodeBlocks(a) && v in uses(b) ensures v in scope + Here(place, k) {
      assert (b, k) in OwnPairs(a, k) && (b, k) in Pairs(a, k);
      if v !in scope {
        assert PlacedAbove(a, k, place, v, k);
        AboveRoot(a, k, place[v]);
      }
    }
  }

  /** The scope that the subtree of kid `i` is printed in: it contains the variables
      of the node itself and, in a sequence, of the kids before. */
  ghost predicate Reached(a: Ast, k: nat, place: map<nat, nat>, scope: set<nat>, inner: set<nat>, i: nat)
    requires Rooted(a, k) && i <= |Kids(a, k)|
  {
    && scope + Here(place, k) <= inner
    && (a.Seq? ==> forall j :: 0 <= j < i ==> Here(place, Kids(a, k)[j].at) <= inner)
  }

  lemma {:induction false} KidPlaced(a: Ast, k: nat, uses: Uses, place: map<nat, nat>, scope: set<nat>,
                                     inner: set<nat>, i: nat)
    requires Rooted(a, k) && UsesArePlaced(a, k, uses, place, scope) && i < |Kids(a, k)|
    requires Reached(a, k, place, scope, inner, i)
    ensures Rooted(Kids(a, k)[i].tree, Kids(a, k)[i].at)
    ensures UsesArePlaced(Kids(a, k)[i].tree, Kids(a, k)[i].at, uses, place, inner)
  {
    var kid := Kids(a, k)[i];
    StartsAndEnds(a, k, i);
    forall p, v | p in Pairs(kid.tree, kid.at) && v in uses(p.0) && v !in inner
      ensures PlacedAbove(kid.tree, kid.at, place, v, p.1)
    {
      KidPairsHas(a, k, Kids(a, k), |Kids(a, k)|, i);
      assert p in Pairs(a, k);
      PairsAreInside(kid.tree, kid.at);
      assert PlacedAbove(a, k, place, v, p.1);
      AboveInKid(a, k, i, place[v], p.1);
    }
  }

  // ----- The printed code is scoped -----

  lemma {:induction false} ConditionIsScoped(uses: Uses, c: Condition, scope: set<nat>)
    requires InScope(uses, Ids(Blocks(c.expr)), scope)
    ensures ScopedAll(uses, EmitCondition(c), scope) && DeclaresAll(EmitCondition(c)) == {}
  {
    RunAllIsScoped(uses, Blocks(c.expr), scope);
  }

  /** Statements that declare nothing, followed by one more. */
  lemma {:induction false} ThenOne(uses: Uses, s: seq<CStmt>, t: CStmt, scope: set<nat>)
    requires ScopedAll(uses, s, scope) && DeclaresAll(s) == {} && Scoped(uses, t, scope)
    ensures ScopedAll(uses, s + [t], scope)
  {
    ScopedAppend(uses, s, [t], scope);
    ScopedOne(uses, t, scope);
    assert scope + {} == scope;
  }

  lemma {:induction false} EmitScoped(a: Ast, k: nat, uses: Uses, place: map<nat, nat>, decls: Declarations,
                                      vars: seq<nat>, next: nat, scope: set<nat>)
    requires Rooted(a, k) && UsesArePlaced(a, k, uses, place, scope) && Lists(decls, place)
    ensures var code := Emit(a, k, decls, vars, next).code;
            ScopedAll(uses, code, scope) && Here(place, k) <= DeclaresAll(code)
    decreases a, 2
  {
    var code := EmitNode(a, k, decls, vars, next).code;
    DeclareAtIsScoped(uses, decls, place, k, scope);
    NodeScoped(a, k, uses, place, decls, vars, next, scope);
    ScopedAppend(uses, DeclareAt(decls, k), code, scope);
  }

  /** A missing branch prints nothing; one that is there is kid number `i`. */
  lemma {:induction false} BranchScoped(a: Ast, k: nat, c: Ast, at: nat, i: nat, uses: Uses, place: map<nat, nat>,
                                        decls: Declarations, vars: seq<nat>, next: nat, scope: set<nat>)
    requires Rooted(a, k) && UsesArePlaced(a, k, uses, place, scope) && Lists(decls, place) && c < a && !a.Seq?
    requires c.Null? || (i < |Kids(a, k)| && Kids(a, k)[i].tree == c && Kids(a, k)[i].at == at)
    ensures ScopedAll(uses, Emit(c, at, decls, vars, next).code, scope + Here(place, k))
    decreases a, 0
  {
    if !c.Null? {
      KidPlaced(a, k, uses, place, scope, scope + Here(place, k), i);
      EmitScoped(c, at, uses, place, decls, vars, next, scope + Here(place, k));
    }
  }

  lemma {:induction false} IfCodeScoped(uses: Uses, cond: Condition, t: seq<CStmt>, e: seq<CStmt>, noElse: bool,
                                        scope: set<nat>)
    requires InScope(uses, Ids(Blocks(cond.expr)), scope) && ScopedAll(uses, t, scope) && ScopedAll(uses, e, scope)
    ensures ScopedAll(uses, EmitCondition(cond) + [CIf(OfGhast(cond.expr), CCompound(t),
                                                       if noElse then NoElse else Else(CCompound(e)))], scope)
  {
    ConditionIsScoped(uses, cond, scope);
    ThenOne(uses, EmitCondition(cond),
            CIf(OfGhast(cond.expr), CCompound(t), if noElse then NoElse else Else(CCompound(e))), scope);
  }

  lemma {:induction false} IfScoped(a: Ast, k: nat, uses: Uses, place: map<nat, nat>, decls: Declarations,
                                    vars: seq<nat>, next: nat, scope: set<nat>)
    requires Rooted(a, k) && UsesArePlaced(a, k, uses, place, scope) && Lists(decls, place) && a.If?
    ensures ScopedAll(uses, EmitNode(a, k, decls, vars, next).code, scope + Here(place, k))
    decreases a, 1, 0
  {
    var inner := scope + Here(place, k);
    OwnUses(a, k, uses, place, scope);
    var t := Emit(a.thn, k + 1, decls, vars, next);
    var e := Emit(a.els, k + 1 + Size(a.thn), decls, vars, t.next);
    BranchScoped(a, k, a.thn, k + 1, 0, uses, place, decls, vars, next, scope);
    BranchScoped(a, k, a.els, k + 1 + Size(a.thn), if a.thn.Null? then 0 else 1, uses, place, decls, vars, t.next,
                 scope);
    IfCodeScoped(uses, a.cond, t.code, e.code, a.els.Null?, inner);
    assert EmitNode(a, k, decls, vars, next).code
        == EmitCondition(a.cond) + [CIf(OfGhast(a.cond.expr), CCompound(t.code),
                                        if a.els.Null? then NoElse else Else(CCompound(e.code)))];
  }

  lemma {:induction false} LoopScoped(a: Ast, k: nat, uses: Uses, place: map<nat, nat>, decls: Declarations,
                                      vars: seq<nat>, next: nat, scope: set<nat>)
    requires Rooted(a, k) && UsesArePlaced(a, k, uses, place, scope) && Lists(decls, place) && a.Scs?
    ensures ScopedAll(uses, EmitNode(a, k, decls, vars, next).code, scope + Here(place, k))
    decreases a, 1, 0
  {
    var inner := scope + Here(place, k);
    OwnUses(a, k, uses, place, scope);
    var b := Emit(a.body, k + 1, decls, vars, next).code;
    BranchScoped(a, k, a.body, k + 1, 0, uses, place, decls, vars, next, scope);
    match a.kind
    case WhileTrue => ScopedOne(uses, CWhile(TrueLiteral, CCompound(b)), inner);
    case While(c) =>
      ConditionIsScoped(uses, c, inner);
      ThenOne(uses, EmitCondition(c), CWhile(OfGhast(c.expr), CCompound(b)), inner);
    case DoWhile(c) =>
      ConditionIsScoped(uses, c, inner);
      MoreScopeAll(uses, EmitCondition(c), inner, inner + DeclaresAll(b));
      ScopedAppend(uses, b, EmitCondition(c), inner);
      ScopedOne(uses, CDoWhile(CCompound(b + EmitCondition(c)), OfGhast(c.expr)), inner);
  }

  /** The scope behind a kid of a sequence holds the variables declared in front of it. */
  lemma {:induction false} ReachedNext(a: Ast, k: nat, place: map<nat, nat>, scope: set<nat>, inner: set<nat>,
                                       more: set<nat>, i: nat)
    requires Rooted(a, k) && i < |Kids(a, k)| && Reached(a, k, place, scope, inner, i)
    requires Here(place, Kids(a, k)[i].at) <= more
    ensures Reached(a, k, place, scope, inner + more, i + 1)
  {
  }

  lemma {:induction false} SeqStepScoped(n: Ast, rest: seq<Ast>, at: nat, uses: Uses, decls: Declarations,
                                         vars: seq<nat>, next: nat, inner: set<nat>)
    requires var first := Emit(n, at, decls, vars, next);
             && ScopedAll(uses, first.code, inner)
             && ScopedAll(uses, EmitSeq(rest, at + Size(n), decls, vars, first.next).code,
                          inner + DeclaresAll(first.code))
    ensures ScopedAll(uses, EmitSeq([n] + rest, at, decls, vars, next).code, inner)
  {
    var first := Emit(n, at, decls, vars, next);
    assert ([n] + rest)[1..] == rest;
    ScopedAppend(uses, first.code, EmitSeq(rest, at + Size(n), decls, vars, first.next).code, inner);
  }

  lemma {:induction false} SeqKidScoped(a: Ast, k: nat, i: nat, at: nat, uses: Uses, place: map<nat, nat>,
                                        decls: Declarations, vars: seq<nat>, next: nat, scope: set<nat>,
                                        inner: set<nat>)
    requires Rooted(a, k) && UsesArePlaced(a, k, uses, place, scope) && Lists(decls, place) && a.Seq?
    requires i < |a.nodes| == |Kids(a, k)| && Reached(a, k, place, scope, inner, i) && at == Start(Kids(a, k), k, i)
    ensures var code := Emit(a.nodes[i], at, decls, vars, next).code;
            && ScopedAll(uses, code, inner)
            && Reached(a, k, place, scope, inner + DeclaresAll(code), i + 1)
    ensures at + Size(a.nodes[i]) == Start(Kids(a, k), k, i + 1)
    decreases a, 0, 0
  {
    KidPlaced(a, k, uses, place, scope, inner, i);
    StartsAndEnds(a, k, i);
    EmitScoped(a.nodes[i], at, uses, place, decls, vars, next, inner);
    ReachedNext(a, k, place, scope, inner, DeclaresAll(Emit(a.nodes[i], at, decls, vars, next).code), i);
  }

  lemma {:induction false} SeqScoped(a: Ast, k: nat, i: nat, at: nat, uses: Uses, place: map<nat, nat>,
                                     decls: Declarations, vars: seq<nat>, next: nat, scope: set<nat>, inner: set<nat>)
    requires Rooted(a, k) && UsesArePlaced(a, k, uses, place, scope) && Lists(decls, place) && a.Seq?
    requires i <= |a.nodes| == |Kids(a, k)| && Reached(a, k, place, scope, inner, i) && at == Start(Kids(a, k), k, i)
    ensures ScopedAll(uses, EmitSeq(a.nodes[i..], at, decls, vars, next).code, inner)
    decreases a, 0, |a.nodes| - i + 1
  {
    if i < |a.nodes| {
      SeqKidScoped(a, k, i, at, uses, place, decls, vars, next, scope, inner);
      var first := Emit(a.nodes[i], at, decls, vars, next);
      var rest := a.nodes[i + 1..];
      SeqScoped(a, k, i + 1, at + Size(a.nodes[i]), uses, place, decls, vars, first.next, scope,
                inner + DeclaresAll(first.code));
      assert a.nodes[i..] == [a.nodes[i]] + rest;
      SeqStepScoped(a.nodes[i], rest, at, uses, decls, vars, next, inner);
    }
  }

  /** Every group of the switch is scoped on its own. */
  ghost predicate GroupsScoped(uses: Uses, groups: seq<Group>, scope: set<nat>) {
    forall i :: 0 <= i < |groups| ==> ScopedAll(uses, groups[i].stmts, scope)
  }

  lemma {:induction false} GroupScoped(uses: Uses, code: seq<CStmt>, scope: set<nat>)
    requires ScopedAll(uses, code, scope)
    ensures ScopedAll(uses, [CCompound(code), CBreak], scope)
  {
    ScopedCons(uses, CCompound(code), [CBreak], scope);
    ScopedOne(uses, CBreak, scope + {});
    assert [CCompound(code)] + [CBreak] == [CCompound(code), CBreak];
  }

  ghost predicate CasesPlaced(kids: seq<Kid>, uses: Uses, place: map<nat, nat>, scope: set<nat>) {
    forall i :: 0 <= i < |kids| ==>
      Rooted(kids[i].tree, kids[i].at) && UsesArePlaced(kids[i].tree, kids[i].at, uses, place, scope)
  }

  lemma {:induction false} LaterCasesPlaced(cases: seq<Case>, p: nat, c: nat, uses: Uses, place: map<nat, nat>,
                                            scope: set<nat>)
    requires cases != [] && CasesPlaced(KidsOfCases(cases, p, c), uses, place, scope)
    ensures Rooted(cases[0].body, c) && UsesArePlaced(cases[0].body, c, uses, place, scope)
    ensures CasesPlaced(KidsOfCases(cases[1..], p, c + Size(cases[0].body)), uses, place, scope)
  {
    var kids := KidsOfCases(cases, p, c);
    assert kids[0] == Kid(cases[0].body, p, c);
    assert kids[1..] == KidsOfCases(cases[1..], p, c + Size(cases[0].body));
  }

  lemma {:induction false} CaseStepScoped(cases: seq<Case>, c: nat, uses: Uses, decls: Declarations, vars: seq<nat>,
                                          next: nat, scope: set<nat>)
    requires cases != [] && cases[0].labels != []
    requires var first := Emit(cases[0].body, c, decls, vars, next);
             && ScopedAll(uses, first.code, scope)
             && GroupsScoped(uses, EmitCases(cases[1..], c + Size(cases[0].body), decls, vars, first.next).groups,
                             scope)
    ensures GroupsScoped(uses, EmitCases(cases, c, decls, vars, next).groups, scope)
  {
    GroupScoped(uses, Emit(cases[0].body, c, decls, vars, next).code, scope);
  }

  lemma {:induction false} CasesScoped(cases: seq<Case>, p: nat, c: nat, uses: Uses, place: map<nat, nat>,
                                       decls: Declarations, vars: seq<nat>, next: nat, scope: set<nat>)
    requires Lists(decls, place) && CasesPlaced(KidsOfCases(cases, p, c), uses, place, scope)
    ensures GroupsScoped(uses, EmitCases(cases, c, decls, vars, next).groups, scope)
    decreases cases, 0
  {
    if cases != [] {
      LaterCasesPlaced(cases, p, c, uses, place, scope);
      var rest := c + Size(cases[0].body);
      if cases[0].labels == [] {
        CasesScoped(cases[1..], p, rest, uses, place, decls, vars, next, scope);
      } else {
        EmitScoped(cases[0].body, c, uses, place, decls, vars, next, scope);
        CasesScoped(cases[1..], p, rest, uses, place, decls, vars, Emit(cases[0].body, c, decls, vars, next).next,
                    scope);
        CaseStepScoped(cases, c, uses, decls, vars, next, scope);
      }
    }
  }

  lemma {:induction false} DefaultScoped(cases: seq<Case>, p: nat, c: nat, uses: Uses, place: map<nat, nat>,
                                         decls: Declarations, vars: seq<nat>, next: nat, scope: set<nat>)
    requires Lists(decls, place) && CasesPlaced(KidsOfCases(cases, p, c), uses, place, scope)
    ensures GroupsScoped(uses, EmitDefault(cases, c, decls, vars, next).groups, scope)
    decreases cases, 0
  {
    if cases != [] {
      LaterCasesPlaced(cases, p, c, uses, place, scope);
      if cases[0].labels == [] {
        EmitScoped(cases[0].body, c, uses, place, decls, vars, next, scope);
        GroupScoped(uses, Emit(cases[0].body, c, decls, vars, next).code, scope);
      } else {
        DefaultScoped(cases[1..], p, c + Size(cases[0].body), uses, place, decls, vars, next, scope);
      }
    }
  }

  /** Statements that neither use nor declare anything can be put around others. */
  lemma {:induction false} AroundScoped(uses: Uses, front: seq<CStmt>, mid: seq<CStmt>, back: seq<CStmt>,
                                        scope: set<nat>)
    requires ScopedAll(uses, front, scope) && DeclaresAll(front) == {}
    requires ScopedAll(uses, mid, scope) && DeclaresAll(mid) == {} && ScopedAll(uses, back, scope)
    ensures ScopedAll(uses, front + mid + back, scope)
  {
    ScopedAppend(uses, front, mid, scope);
    ScopedAppend(uses, front + mid, back, scope);
    assert scope + {} == scope;
  }

  lemma {:induction false} SwitchScoped(a: Ast, k: nat, uses: Uses, place: map<nat, nat>, decls: Declarations,
                                        vars: seq<nat>, next: nat, scope: set<nat>)
    requires Rooted(a, k) && UsesArePlaced(a, k, uses, place, scope) && Lists(decls, place) && a.Switch?
    ensures ScopedAll(uses, EmitNode(a, k, decls, vars, next).code, scope + Here(place, k))
    decreases a, 1, 0
  {
    var inner := scope + Here(place, k);
    OwnUses(a, k, uses, place, scope);
    forall i | 0 <= i < |Kids(a, k)|
      ensures Rooted(Kids(a, k)[i].tree, Kids(a, k)[i].at)
      ensures UsesArePlaced(Kids(a, k)[i].tree, Kids(a, k)[i].at, uses, place, inner)
    {
      KidPlaced(a, k, uses, place, scope, inner, i);
    }
    var vars1 := if a.needsVar then vars + [next] else vars;
    var next1 := if a.needsVar then next + 1 else next;
    var labelled := EmitCases(a.cases, k + 1, decls, vars1, next1);
    var default := EmitDefault(a.cases, k + 1, decls, vars1, labelled.next);
    CasesScoped(a.cases, k, k + 1, uses, place, decls, vars1, next1, inner);
    DefaultScoped(a.cases, k, k + 1, uses, place, decls, vars1, labelled.next, inner);
    SwitchCodeScoped(uses, a, next, Top(vars1), labelled.groups, default.groups, inner);
  }

  lemma {:induction false} SwitchCodeScoped(uses: Uses, a: Ast, v: nat, top: nat, l: seq<Group>, d: seq<Group>,
                                            scope: set<nat>)
    requires a.Switch? && InScope(uses, ScrutineeIds(a.on), scope) && GroupsScoped(uses, l, scope)
    requires GroupsScoped(uses, d, scope)
    ensures var declared := if a.needsVar then [CDeclareFalse(v)] else [];
            var dispatch := if a.needsDispatcher then [CIf(StateVar(top), CBreak, NoElse)] else [];
            ScopedAll(uses, declared + EmitScrutinee(a.on) + [CSwitch(a.on, l + d)] + dispatch, scope)
  {
    var s := CSwitch(a.on, l + d);
    var declared := if a.needsVar then [CDeclareFalse(v)] else [];
    var dispatch := if a.needsDispatcher then [CIf(StateVar(top), CBreak, NoElse)] else [];
    SwitchStmtScoped(uses, a.on, l, d, scope);
    DeclaredIsScoped(uses, a.needsVar, v, scope);
    DispatchIsScoped(uses, a.needsDispatcher, top, scope);
    AroundScoped(uses, declared, EmitScrutinee(a.on) + [s], dispatch, scope);
    assert declared + EmitScrutinee(a.on) + [s] + dispatch == declared + (EmitScrutinee(a.on) + [s]) + dispatch;
  }

  lemma {:induction false} DeclaredIsScoped(uses: Uses, needsVar: bool, v: nat, scope: set<nat>)
    ensures var declared := if needsVar then [CDeclareFalse(v)] else [];
            ScopedAll(uses, declared, scope) && DeclaresAll(declared) == {}
  {
    ScopedOne(uses, CDeclareFalse(v), scope);
  }

  lemma {:induction false} DispatchIsScoped(uses: Uses, needed: bool, v: nat, scope: set<nat>)
    ensures ScopedAll(uses, if needed then [CIf(StateVar(v), CBreak, NoElse)] else [], scope)
  {
    ScopedOne(uses, CIf(StateVar(v), CBreak, NoElse), scope);
  }

  lemma {:induction false} SwitchStmtScoped(uses: Uses, on: Scrutinee, a: seq<Group>, b: seq<Group>, scope: set<nat>)
    requires InScope(uses, ScrutineeIds(on), scope) && GroupsScoped(uses, a, scope) && GroupsScoped(uses, b, scope)
    ensures var code := EmitScrutinee(on) + [CSwitch(on, a + b)];
            ScopedAll(uses, code, scope) && DeclaresAll(code) == {}
  {
    var s := CSwitch(on, a + b);
    ScopedOne(uses, s, scope);
    if on.OfValue? && !on.weaved { ScopedOne(uses, CRun(on.bb, Jumps), scope); }
    ScopedAppend(uses, EmitScrutinee(on), [s], scope);
    assert scope + {} == scope;
  }

  lemma {:induction false} LeafScoped(a: Ast, k: nat, uses: Uses, decls: Declarations, vars: seq<nat>, next: nat,
                                      inner: set<nat>)
    requires a.Code? || a.SwitchBreak? || a.Set? || a.Break?
    requires InScope(uses, NodeBlocks(a), inner)
    ensures ScopedAll(uses, EmitNode(a, k, decls, vars, next).code, inner)
  {
    if a.Break? {
      ScopedOne(uses, CAssignTrue(Top(vars)), inner);
      ThenOne(uses, if a.fromSwitch then [CAssignTrue(Top(vars))] else [], CBreak, inner);
    } else {
      var code := EmitNode(a, k, decls, vars, next).code;
      assert code == [code[0]];
      ScopedOne(uses, code[0], inner);
    }
  }

  lemma {:induction false} ContinueScoped(a: Ast, k: nat, uses: Uses, decls: Declarations, vars: seq<nat>, next: nat,
                                          inner: set<nat>)
    requires a.Continue? && InScope(uses, NodeBlocks(a), inner)
    ensures ScopedAll(uses, EmitNode(a, k, decls, vars, next).code, inner)
  {
    var before := if a.computation.Computes? then EmitCondition(a.computation.cond) else [];
    if a.computation.Computes? { ConditionIsScoped(uses, a.computation.cond, inner); }
    if a.implicit { assert before + [] == before; } else { ThenOne(uses, before, CContinue, inner); }
  }

  lemma {:induction false} NodeScoped(a: Ast, k: nat, uses: Uses, place: map<nat, nat>, decls: Declarations,
                                      vars: seq<nat>, next: nat, scope: set<nat>)
    requires Rooted(a, k) && UsesArePlaced(a, k, uses, place, scope) && Lists(decls, place)
    ensures ScopedAll(uses, EmitNode(a, k, decls, vars, next).code, scope + Here(place, k))
    decreases a, 1, 1
  {
    var inner := scope + Here(place, k);
    OwnUses(a, k, uses, place, scope);
    match a
    case If(_, _, _) => IfScoped(a, k, uses, place, decls, vars, next, scope);
    case Scs(_, _) => LoopScoped(a, k, uses, place, decls, vars, next, scope);
    case Seq(nodes) =>
      StartsAndEnds(a, k, 0);
      SeqScoped(a, k, 0, k + 1, uses, place, decls, vars, next, scope, inner);
      assert nodes[0..] == nodes;
    case Switch(_, _, _, _) => SwitchScoped(a, k, uses, place, decls, vars, next, scope);
    case Continue(_, _) => ContinueScoped(a, k, uses, decls, vars, next, inner);
    case _ => LeafScoped(a, k, uses, decls, vars, next, inner);
  }
}

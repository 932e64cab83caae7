/** Every variable is declared once in the printed C, and all its uses are in the
    scope of that declaration. */
module Declarations {
  import opened Wrappers
  import opened Ghast
  import opened CLang
  import opened Emission
  import opened ScopeTree
  import opened Alap
  import opened Scoping

  // ----- How often a variable is declared -----

  function Count(s: CStmt, v: nat): nat {
    match s
    case CDeclare(name) => if name == v then 1 else 0
    case CIf(_, thn, els) => Count(thn, v) + if els.Else? then Count(els.s, v) else 0
    case CWhile(_, body) => Count(body, v)
    case CDoWhile(body, _) => Count(body, v)
    case CSwitch(_, groups) => CountGroups(groups, v)
    case CCompound(stmts) => CountAll(stmts, v)
    case _ => 0
  }

  function CountAll(stmts: seq<CStmt>, v: nat): nat {
    if stmts == [] then 0 else Count(stmts[0], v) + CountAll(stmts[1..], v)
  }

  function CountGroups(groups: seq<Group>, v: nat): nat {
    if groups == [] then 0 else CountAll(groups[0].stmts, v) + CountGroups(groups[1..], v)
  }

  lemma {:induction false} CountAppend(s: seq<CStmt>, t: seq<CStmt>, v: nat)
    ensures CountAll(s + t, v) == CountAll(s, v) + CountAll(t, v)
    decreases |s|
  {
    if s == [] {
      assert s + t == t;
    } else {
      assert (s + t)[0] == s[0] && (s + t)[1..] == s[1..] + t;
      CountAppend(s[1..], t, v);
    }
  }

  lemma {:induction false} CountOne(s: CStmt, v: nat)
    ensures CountAll([s], v) == Count(s, v)
  {
    assert CountAll([s][1..], v) == 0;
  }

  lemma {:induction false} CountGroupsAppend(s: seq<Group>, t: seq<Group>, v: nat)
    ensures CountGroups(s + t, v) == CountGroups(s, v) + CountGroups(t, v)
    decreases |s|
  {
    if s == [] {
      assert s + t == t;
    } else {
      assert (s + t)[0] == s[0] && (s + t)[1..] == s[1..] + t;
      CountGroupsAppend(s[1..], t, v);
    }
  }

  lemma {:induction false} RunAllDeclaresNothing(bs: seq<Block>, v: nat)
    ensures CountAll(RunAll(bs), v) == 0
  {
    if bs != [] {
      CountOne(CRun(bs[0], Jumps), v);
      CountAppend([CRun(bs[0], Jumps)], RunAll(bs[1..]), v);
      RunAllDeclaresNothing(bs[1..], v);
    }
  }

  predicate NoDuplicates(s: seq<nat>) {
    forall i, j :: 0 <= i < j < |s| ==> s[i] != s[j]
  }

  lemma {:induction false} DeclareCounts(names: seq<nat>, v: nat)
    requires NoDuplicates(names)
    ensures CountAll(Declare(names), v) == if v in names then 1 else 0
  {
    if names != [] {
      CountOne(CDeclare(names[0]), v);
      CountAppend([CDeclare(names[0])], Declare(names[1..]), v);
      DeclareCounts(names[1..], v);
    }
  }

  /** Whether `v` is placed at a label from `lo` up to `hi`. */
  function Within(place: map<nat, nat>, v: nat, lo: nat, hi: nat): nat {
    if v in place && lo <= place[v] < hi then 1 else 0
  }

  /** A switch has at most one default case. */
  predicate OneDefault(a: Ast) {
    match a
    case If(_, thn, els) => OneDefault(thn) && OneDefault(els)
    case Scs(_, body) => OneDefault(body)
    case Seq(nodes) => AllOneDefault(nodes)
    case Switch(_, cases, _, _) =>
      && (forall i :: 0 <= i < |cases| ==> OneDefault(cases[i].body))
      && (forall i, j :: 0 <= i < j < |cases| ==> cases[i].labels != [] || cases[j].labels != [])
    case _ => true
  }

  predicate AllOneDefault(nodes: seq<Ast>) {
    forall i :: 0 <= i < |nodes| ==> OneDefault(nodes[i])
  }

  lemma {:induction false} RestOneDefault(nodes: seq<Ast>)
    requires nodes != [] && AllOneDefault(nodes)
    ensures OneDefault(nodes[0]) && AllOneDefault(nodes[1..])
  {
  }

  ghost predicate ListsOnce(decls: Declarations, place: map<nat, nat>) {
    Lists(decls, place) && forall n :: n in decls ==> NoDuplicates(decls[n])
  }

  /** The code of a node declares `v` if it is placed in the subtree, and only once. */
  ghost predicate NodeCounted(a: Ast, k: nat, place: map<nat, nat>, decls: Declarations, vars: seq<nat>, next: nat,
                              v: nat) {
    CountAll(Emit(a, k, decls, vars, next).code, v) == Within(place, v, k, k + Size(a))
  }

  ghost predicate SeqCounted(nodes: seq<Ast>, k: nat, place: map<nat, nat>, decls: Declarations, vars: seq<nat>,
                             next: nat, v: nat) {
    CountAll(EmitSeq(nodes, k, decls, vars, next).code, v) == Within(place, v, k, k + SizeSeq(nodes))
  }

  lemma {:induction false} EmitCounts(a: Ast, k: nat, place: map<nat, nat>, decls: Declarations, vars: seq<nat>,
                                      next: nat, v: nat)
    requires ListsOnce(decls, place) && OneDefault(a)
    ensures NodeCounted(a, k, place, decls, vars, next, v)
    decreases a, 2
  {
    if !a.Null? {
      NodeCounts(a, k, place, decls, vars, next, v);
      CountAppend(DeclareAt(decls, k), EmitNode(a, k, decls, vars, next).code, v);
      if k in decls { DeclareCounts(decls[k], v); }
    }
  }

  lemma {:induction false} SeqStepCounts(nodes: seq<Ast>, k: nat, place: map<nat, nat>, decls: Declarations,
                                         vars: seq<nat>, next: nat, v: nat)
    requires nodes != []
    requires NodeCounted(nodes[0], k, place, decls, vars, next, v)
    requires SeqCounted(nodes[1..], k + Size(nodes[0]), place, decls, vars, Emit(nodes[0], k, decls, vars, next).next,
                        v)
    ensures SeqCounted(nodes, k, place, decls, vars, next, v)
  {
    var at, first := k + Size(nodes[0]), Emit(nodes[0], k, decls, vars, next);
    CountAppend(first.code, EmitSeq(nodes[1..], at, decls, vars, first.next).code, v);
    WithinSplits(place, v, k, at, k + SizeSeq(nodes));
  }

  lemma {:induction false} SeqCounts(nodes: seq<Ast>, k: nat, place: map<nat, nat>, decls: Declarations, vars: seq<nat>,
                                     next: nat, v: nat)
    requires ListsOnce(decls, place) && AllOneDefault(nodes)
    ensures SeqCounted(nodes, k, place, decls, vars, next, v)
    decreases nodes, 0
  {
    if nodes != [] {
      RestOneDefault(nodes);
      EmitCounts(nodes[0], k, place, decls, vars, next, v);
      SeqCounts(nodes[1..], k + Size(nodes[0]), place, decls, vars, Emit(nodes[0], k, decls, vars, next).next, v);
      SeqStepCounts(nodes, k, place, decls, vars, next, v);
    }
  }

  lemma {:induction false} GroupCounts(code: seq<CStmt>, v: nat)
    ensures CountAll([CCompound(code), CBreak], v) == CountAll(code, v)
  {
    CountOne(CCompound(code), v);
    CountOne(CBreak, v);
    CountAppend([CCompound(code)], [CBreak], v);
    assert [CCompound(code)] + [CBreak] == [CCompound(code), CBreak];
  }

  /** The declarations of the labelled cases, or of the first case without labels. */
  function LabelledWithin(cases: seq<Case>, k: nat, place: map<nat, nat>, v: nat): nat {
    if cases == [] then 0
    else
      (if cases[0].labels == [] then 0 else Within(place, v, k, k + Size(cases[0].body)))
      + LabelledWithin(cases[1..], k + Size(cases[0].body), place, v)
  }

  function DefaultWithin(cases: seq<Case>, k: nat, place: map<nat, nat>, v: nat): nat {
    if cases == [] then 0
    else if cases[0].labels == [] then Within(place, v, k, k + Size(cases[0].body))
    else DefaultWithin(cases[1..], k + Size(cases[0].body), place, v)
  }

  lemma {:induction false} CasesCount(cases: seq<Case>, k: nat, place: map<nat, nat>, decls: Declarations,
                                      vars: seq<nat>, next: nat, v: nat)
    requires ListsOnce(decls, place) && forall i :: 0 <= i < |cases| ==> OneDefault(cases[i].body)
    ensures CountGroups(EmitCases(cases, k, decls, vars, next).groups, v) == LabelledWithin(cases, k, place, v)
    decreases cases, 0
  {
    if cases != [] {
      var rest := k + Size(cases[0].body);
      if cases[0].labels == [] {
        CasesCount(cases[1..], rest, place, decls, vars, next, v);
      } else {
        var first := Emit(cases[0].body, k, decls, vars, next);
        EmitCounts(cases[0].body, k, place, decls, vars, next, v);
        GroupCounts(first.code, v);
        CasesCount(cases[1..], rest, place, decls, vars, first.next, v);
        GroupsCons(Group(cases[0].labels, false, [CCompound(first.code), CBreak]),
                   EmitCases(cases[1..], rest, decls, vars, first.next).groups, v);
      }
    }
  }

  lemma {:induction false} GroupsCons(g: Group, rest: seq<Group>, v: nat)
    ensures CountGroups([g] + rest, v) == CountAll(g.stmts, v) + CountGroups(rest, v)
  {
    assert ([g] + rest)[1..] == rest;
  }

  lemma {:induction false} DefaultCounts(cases: seq<Case>, k: nat, place: map<nat, nat>, decls: Declarations,
                                         vars: seq<nat>, next: nat, v: nat)
    requires ListsOnce(decls, place) && forall i :: 0 <= i < |cases| ==> OneDefault(cases[i].body)
    ensures CountGroups(EmitDefault(cases, k, decls, vars, next).groups, v) == DefaultWithin(cases, k, place, v)
    decreases cases, 0
  {
    if cases != [] {
      if cases[0].labels == [] {
        var body := Emit(cases[0].body, k, decls, vars, next);
        EmitCounts(cases[0].body, k, place, decls, vars, next, v);
        GroupCounts(body.code, v);
        GroupsCons(Group([], true, [CCompound(body.code), CBreak]), [], v);
      } else {
        DefaultCounts(cases[1..], k + Size(cases[0].body), place, decls, vars, next, v);
      }
    }
  }

  lemma {:induction false} AllCasesCounted(cases: seq<Case>, k: nat, place: map<nat, nat>, v: nat)
    requires forall i, j :: 0 <= i < j < |cases| ==> cases[i].labels != [] || cases[j].labels != []
    ensures LabelledWithin(cases, k, place, v) + DefaultWithin(cases, k, place, v)
         == Within(place, v, k, k + SizeCases(cases))
  {
    if cases != [] {
      var rest := k + Size(cases[0].body);
      AllCasesCounted(cases[1..], rest, place, v);
      if cases[0].labels == [] { NoOtherDefault(cases[1..], rest, place, v); }
    }
  }

  lemma {:induction false} NoOtherDefault(cases: seq<Case>, k: nat, place: map<nat, nat>, v: nat)
    requires forall i :: 0 <= i < |cases| ==> cases[i].labels != []
    ensures DefaultWithin(cases, k, place, v) == 0
  {
    if cases != [] { NoOtherDefault(cases[1..], k + Size(cases[0].body), place, v); }
  }

  lemma {:induction false} SwitchCounts(a: Ast, k: nat, place: map<nat, nat>, decls: Declarations, vars: seq<nat>,
                                        next: nat, v: nat)
    requires ListsOnce(decls, place) && OneDefault(a) && a.Switch?
    ensures CountAll(EmitNode(a, k, decls, vars, next).code, v) == Within(place, v, k + 1, k + Size(a))
    decreases a, 1, 0
  {
    var vars1 := if a.needsVar then vars + [next] else vars;
    var next1 := if a.needsVar then next + 1 else next;
    var labelled := EmitCases(a.cases, k + 1, decls, vars1, next1);
    var default := EmitDefault(a.cases, k + 1, decls, vars1, labelled.next);
    CasesCount(a.cases, k + 1, place, decls, vars1, next1, v);
    DefaultCounts(a.cases, k + 1, place, decls, vars1, labelled.next, v);
    AllCasesCounted(a.cases, k + 1, place, v);
    var declared := if a.needsVar then [CDeclareFalse(next)] else [];
    var dispatch := if a.needsDispatcher then [CIf(StateVar(Top(vars1)), CBreak, NoElse)] else [];
    SwitchCodeCounts(declared, a.on, labelled.groups, default.groups, dispatch, v);
    assert EmitNode(a, k, decls, vars, next).code
        == declared + EmitScrutinee(a.on) + [CSwitch(a.on, labelled.groups + default.groups)] + dispatch;
  }

  lemma {:induction false} SwitchCodeCounts(declared: seq<CStmt>, on: Scrutinee, l: seq<Group>, d: seq<Group>,
                                            dispatch: seq<CStmt>, v: nat)
    requires |declared| <= 1 && |dispatch| <= 1 && forall x :: x in declared + dispatch ==> Count(x, v) == 0
    ensures CountAll(declared + EmitScrutinee(on) + [CSwitch(on, l + d)] + dispatch, v)
         == CountGroups(l, v) + CountGroups(d, v)
  {
    CountGroupsAppend(l, d, v);
    SwitchStmtsCount(declared, EmitScrutinee(on), CSwitch(on, l + d), dispatch, v);
  }

  lemma {:induction false} SwitchStmtsCount(declared: seq<CStmt>, scrutinee: seq<CStmt>, s: CStmt,
                                            dispatch: seq<CStmt>, v: nat)
    requires |declared| <= 1 && |scrutinee| <= 1 && |dispatch| <= 1
    requires forall x :: x in declared + scrutinee + dispatch ==> Count(x, v) == 0
    ensures CountAll(declared + scrutinee + [s] + dispatch, v) == Count(s, v)
  {
    CountAtMostOne(declared, v);
    CountAtMostOne(scrutinee, v);
    CountAtMostOne(dispatch, v);
    CountOne(s, v);
    CountAppend(declared, scrutinee, v);
    CountAppend(declared + scrutinee, [s], v);
    CountAppend(declared + scrutinee + [s], dispatch, v);
  }

  lemma {:induction false} CountAtMostOne(s: seq<CStmt>, v: nat)
    requires |s| <= 1 && forall x :: x in s ==> Count(x, v) == 0
    ensures CountAll(s, v) == 0
  {
    if s != [] {
      CountOne(s[0], v);
      assert s == [s[0]];
    }
  }

  lemma {:induction false} CompoundAfter(before: seq<CStmt>, s: CStmt, v: nat)
    requires CountAll(before, v) == 0
    ensures CountAll(before + [s], v) == Count(s, v)
  {
    CountOne(s, v);
    CountAppend(before, [s], v);
  }

  lemma {:induction false} IfCounts(a: Ast, k: nat, place: map<nat, nat>, decls: Declarations, vars: seq<nat>,
                                    next: nat, v: nat)
    requires ListsOnce(decls, place) && OneDefault(a) && a.If?
    ensures CountAll(EmitNode(a, k, decls, vars, next).code, v) == Within(place, v, k + 1, k + Size(a))
    decreases a, 1, 0
  {
    var at := k + 1 + Size(a.thn);
    var t := Emit(a.thn, k + 1, decls, vars, next);
    EmitCounts(a.thn, k + 1, place, decls, vars, next, v);
    EmitCounts(a.els, at, place, decls, vars, t.next, v);
    IfNodeCounts(a, k, decls, vars, next, v);
    WithinSplits(place, v, k + 1, at, k + Size(a));
  }

  lemma {:induction false} WithinSplits(place: map<nat, nat>, v: nat, lo: nat, mid: nat, hi: nat)
    requires lo <= mid <= hi
    ensures Within(place, v, lo, hi) == Within(place, v, lo, mid) + Within(place, v, mid, hi)
  {
  }

  lemma {:induction false} IfNodeCounts(a: Ast, k: nat, decls: Declarations, vars: seq<nat>, next: nat, v: nat)
    requires a.If?
    ensures var t := Emit(a.thn, k + 1, decls, vars, next);
            var e := Emit(a.els, k + 1 + Size(a.thn), decls, vars, t.next);
            CountAll(EmitNode(a, k, decls, vars, next).code, v) == CountAll(t.code, v) + CountAll(e.code, v)
  {
    var t := Emit(a.thn, k + 1, decls, vars, next);
    var e := Emit(a.els, k + 1 + Size(a.thn), decls, vars, t.next);
    var elseBranch := if a.els.Null? then NoElse else Else(CCompound(e.code));
    IfCodeCounts(a.cond, t.code, elseBranch, v);
    assert EmitNode(a, k, decls, vars, next).code
        == EmitCondition(a.cond) + [CIf(OfGhast(a.cond.expr), CCompound(t.code), elseBranch)];
    if a.els.Null? { assert e.code == []; }
  }

  lemma {:induction false} IfCodeCounts(cond: Condition, t: seq<CStmt>, els: ElseBranch, v: nat)
    ensures CountAll(EmitCondition(cond) + [CIf(OfGhast(cond.expr), CCompound(t), els)], v)
         == CountAll(t, v) + if els.Else? then Count(els.s, v) else 0
  {
    RunAllDeclaresNothing(Blocks(cond.expr), v);
    CompoundAfter(EmitCondition(cond), CIf(OfGhast(cond.expr), CCompound(t), els), v);
  }

  lemma {:induction false} LoopCounts(a: Ast, k: nat, place: map<nat, nat>, decls: Declarations, vars: seq<nat>,
                                      next: nat, v: nat)
    requires ListsOnce(decls, place) && OneDefault(a) && a.Scs?
    ensures CountAll(EmitNode(a, k, decls, vars, next).code, v) == Within(place, v, k + 1, k + Size(a))
    decreases a, 1, 0
  {
    EmitCounts(a.body, k + 1, place, decls, vars, next, v);
    LoopNodeCounts(a, k, decls, vars, next, v);
  }

  lemma {:induction false} LoopNodeCounts(a: Ast, k: nat, decls: Declarations, vars: seq<nat>, next: nat, v: nat)
    requires a.Scs?
    ensures CountAll(EmitNode(a, k, decls, vars, next).code, v)
         == CountAll(Emit(a.body, k + 1, decls, vars, next).code, v)
  {
    var b := Emit(a.body, k + 1, decls, vars, next).code;
    match a.kind
    case WhileTrue => CountOne(CWhile(TrueLiteral, CCompound(b)), v);
    case While(c) =>
      RunAllDeclaresNothing(Blocks(c.expr), v);
      CompoundAfter(EmitCondition(c), CWhile(OfGhast(c.expr), CCompound(b)), v);
    case DoWhile(c) =>
      RunAllDeclaresNothing(Blocks(c.expr), v);
      CountAppend(b, EmitCondition(c), v);
      CountOne(CDoWhile(CCompound(b + EmitCondition(c)), OfGhast(c.expr)), v);
  }

  lemma {:induction false} LeafCounts(a: Ast, k: nat, place: map<nat, nat>, decls: Declarations, vars: seq<nat>,
                                      next: nat, v: nat)
    requires !a.If? && !a.Scs? && !a.Seq? && !a.Switch? && !a.Null?
    ensures CountAll(EmitNode(a, k, decls, vars, next).code, v) == 0
  {
    match a
    case Continue(computation, implicit) =>
      var before := if computation.Computes? then EmitCondition(computation.cond) else [];
      if computation.Computes? { RunAllDeclaresNothing(Blocks(computation.cond.expr), v); }
      if implicit { assert before + [] == before; } else { CompoundAfter(before, CContinue, v); }
    case Break(fromSwitch) =>
      CountAtMostOne(if fromSwitch then [CAssignTrue(Top(vars))] else [], v);
      CompoundAfter(if fromSwitch then [CAssignTrue(Top(vars))] else [], CBreak, v);
    case _ => CountAtMostOne(EmitNode(a, k, decls, vars, next).code, v);
  }

  lemma {:induction false} NodeCounts(a: Ast, k: nat, place: map<nat, nat>, decls: Declarations, vars: seq<nat>,
                                      next: nat, v: nat)
    requires ListsOnce(decls, place) && OneDefault(a) && !a.Null?
    ensures CountAll(EmitNode(a, k, decls, vars, next).code, v) == Within(place, v, k + 1, k + Size(a))
    decreases a, 1, 1
  {
    match a
    case If(_, _, _) => IfCounts(a, k, place, decls, vars, next, v);
    case Scs(_, _) => LoopCounts(a, k, place, decls, vars, next, v);
    case Seq(nodes) => SeqCounts(nodes, k + 1, place, decls, vars, next, v);
    case Switch(_, _, _, _) => SwitchCounts(a, k, place, decls, vars, next, v);
    case _ => LeafCounts(a, k, place, decls, vars, next, v);
  }

  // ----- The whole function -----

  /** A map from nodes to variables that puts every one of `vars` at the deepest node
      from which all its uses can be reached, and nowhere else. */
  ghost predicate Assigns(a: Ast, uses: Uses, vars: set<nat>, result: map<nat, set<nat>>)
    requires Rooted(a, 0)
  {
    var pairs := Pairs(a, 0);
    && (forall v :: v in vars ==> forall n :: n in UsageNodes(pairs, uses, v) ==> Inside(a, 0, n))
    && (forall n, v :: v in At(result, n) ==> v in vars && IsDeepest(a, 0, n, UsageNodes(pairs, uses, v)))
    && (forall v :: v in vars ==> OnePlace(result, v))
  }

  lemma {:induction false} SamePlace(result: map<nat, set<nat>>, v: nat, m: nat, n: nat)
    requires OnePlace(result, v) && v in At(result, m) && v in At(result, n)
    ensures m == n
  {
    var p :| v in At(result, p) && forall x :: v in At(result, x) ==> x == p;
  }

  /** The same variables, listed for the printer. */
  ghost predicate Listed(decls: Declarations, result: map<nat, set<nat>>) {
    && (forall n :: n in decls ==> NoDuplicates(decls[n]))
    && (forall n, v :: v in At(result, n) <==> n in decls && v in decls[n])
  }

  /** The postcondition of the placement, for the variables used in blocks. */
  lemma {:induction false} PlacedAboveUses(a: Ast, uses: Uses, vars: set<nat>, result: map<nat, set<nat>>,
                                           place: map<nat, nat>)
    requires Rooted(a, 0) && Assigns(a, uses, vars, result)
    requires forall p, v :: p in Pairs(a, 0) && v in uses(p.0) ==> v in vars
    requires place.Keys == vars && forall v :: v in vars ==> v in At(result, place[v])
    ensures UsesArePlaced(a, 0, uses, place, {})
  {
    forall p, v | p in Pairs(a, 0) && v in uses(p.0) ensures PlacedAbove(a, 0, place, v, p.1) {
      var n := p.1;
      assert n in UsageNodes(Pairs(a, 0), uses, v);
      assert IsDeepest(a, 0, place[v], UsageNodes(Pairs(a, 0), uses, v));
      DominanceIsReachability(a, 0, place[v], n);
    }
  }

  lemma {:induction false} ListedOnce(vars: set<nat>, result: map<nat, set<nat>>, decls: Declarations,
                                      place: map<nat, nat>)
    requires Listed(decls, result) && (forall n, v :: v in At(result, n) ==> v in vars)
    requires forall v :: v in vars ==> OnePlace(result, v)
    requires place.Keys == vars && forall v :: v in vars ==> v in At(result, place[v])
    ensures ListsOnce(decls, place)
  {
    forall n, i | n in decls && 0 <= i < |decls[n]| ensures decls[n][i] in place && place[decls[n][i]] == n {
      var v := decls[n][i];
      assert v in decls[n] && v in At(result, n);
      assert v in vars && OnePlace(result, v);
      SamePlace(result, v, place[v], n);
    }
  }

  lemma {:induction false} DeclaredOnce(a: Ast, uses: Uses, vars: set<nat>, result: map<nat, set<nat>>,
                                        decls: Declarations, place: map<nat, nat>, v: nat)
    requires Rooted(a, 0) && OneDefault(a) && Assigns(a, uses, vars, result) && ListsOnce(decls, place)
    requires v in vars && v in place && v in At(result, place[v])
    ensures CountAll(Emit(a, 0, decls, [], 0).code, v) == 1
  {
    assert IsDeepest(a, 0, place[v], UsageNodes(Pairs(a, 0), uses, v));
    EmitCounts(a, 0, place, decls, [], 0, v);
  }

  lemma {:induction false} PlaceFound(a: Ast, uses: Uses, vars: set<nat>, result: map<nat, set<nat>>)
    returns (place: map<nat, nat>)
    requires Rooted(a, 0) && Assigns(a, uses, vars, result)
    ensures place.Keys == vars && forall v :: v in vars ==> v in At(result, place[v])
  {
    place := map v | v in vars :: var n: nat :| v in At(result, n); n;
  }

  /** Every use of a variable in the printed C lies in the scope of its declaration,
      and every variable is declared exactly once. */
  lemma {:induction false} UsesAreInScope(a: Ast, uses: Uses, vars: set<nat>, result: map<nat, set<nat>>,
                                          decls: Declarations)
    requires Rooted(a, 0) && OneDefault(a) && Assigns(a, uses, vars, result) && Listed(decls, result)
    requires forall p, v :: p in Pairs(a, 0) && v in uses(p.0) ==> v in vars
    ensures ScopedAll(uses, Emit(a, 0, decls, [], 0).code, {})
    ensures forall v :: v in vars ==> CountAll(Emit(a, 0, decls, [], 0).code, v) == 1
  {
    var place := PlaceFound(a, uses, vars, result);
    PlacedAboveUses(a, uses, vars, result, place);
    ListedOnce(vars, result, decls, place);
    EmitScoped(a, 0, uses, place, decls, [], 0, {});
    forall v | v in vars ensures CountAll(Emit(a, 0, decls, [], 0).code, v) == 1 {
      DeclaredOnce(a, uses, vars, result, decls, place, v);
    }
  }

  /** The elements of a set, each once. */
  method ListSet(s: set<nat>) returns (r: seq<nat>)
    ensures NoDuplicates(r) && forall v :: v in r <==> v in s
  {
    r := [];
    var rest := s;
    while rest != {}
      invariant NoDuplicates(r) && forall v :: v in s <==> v in r || v in rest
      invariant forall v :: v in r ==> v !in rest
      decreases rest
    {
      var v :| v in rest;
      rest := rest - {v};
      r := r + [v];
    }
  }

  method ListAll(result: map<nat, set<nat>>) returns (decls: Declarations)
    ensures Listed(decls, result)
  {
    decls := map[];
    var rest := result.Keys;
    while rest != {}
      invariant rest <= result.Keys && forall n :: n in decls <==> n in result && n !in rest
      invariant forall n :: n in decls ==> NoDuplicates(decls[n]) && forall v :: v in decls[n] <==> v in result[n]
      decreases rest
    {
      var n :| n in rest;
      var names := ListSet(result[n]);
      decls := decls[n := names];
      rest := rest - {n};
    }
  }

  /** The list of pending variables, before any has been assigned. */
  method MakePending(vars: seq<nat>) returns (pending: array<Option<nat>>)
    ensures fresh(pending)
    ensures forall p :: 0 <= p < pending.Length ==> pending[p].Some? && pending[p].value in vars
    ensures forall v: nat :: Some(v) in pending[..] <==> v in vars
  {
    pending := new Option<nat>[|vars|](i requires 0 <= i < |vars| => Some(vars[i]));
    ghost var before := pending[..];
    forall v: nat ensures Some(v) in before <==> v in vars {
      if v in vars {
        var i :| 0 <= i < |vars| && vars[i] == v;
        assert before[i] == Some(v);
      }
    }
  }

  lemma {:induction false} UsagesAreValid(a: Ast, uses: Uses, vars: seq<nat>, usages: map<nat, set<nat>>)
    requires Rooted(a, 0) && usages.Keys == (set v | v in vars)
    requires forall v :: v in vars ==> usages[v] == UsageNodes(Pairs(a, 0), uses, v)
    ensures ValidUsages(a, 0, usages)
  {
    PairsAreInside(a, 0);
  }

  lemma {:induction false} AssignsFrom(a: Ast, uses: Uses, vars: seq<nat>, usages: map<nat, set<nat>>,
                                       before: seq<Option<nat>>, result: map<nat, set<nat>>)
    requires Rooted(a, 0) && ValidUsages(a, 0, usages) && usages.Keys == (set v | v in vars)
    requires forall v :: v in vars ==> usages[v] == UsageNodes(Pairs(a, 0), uses, v)
    requires forall v: nat :: Some(v) in before <==> v in vars
    requires forall n, v :: v in At(result, n) ==> Some(v) in before && IsDeepest(a, 0, n, usages[v])
    requires forall v :: Some(v) in before ==> OnePlace(result, v)
    ensures Assigns(a, uses, (set v | v in vars), result)
  {
    var pairs := Pairs(a, 0);
    forall v | v in vars ensures forall n :: n in UsageNodes(pairs, uses, v) ==> Inside(a, 0, n) {
      assert usages[v] == UsageNodes(pairs, uses, v);
    }
    forall n, v | v in At(result, n) ensures v in vars && IsDeepest(a, 0, n, UsageNodes(pairs, uses, v)) {
      assert Some(v) in before && usages[v] == UsageNodes(pairs, uses, v);
    }
    forall v | v in vars ensures OnePlace(result, v) {
      assert Some(v) in before;
    }
  }

  /** Builds the mapping from blocks to nodes, collects the usages of each variable
      and assigns it to a node. */
  method AssignVariables(a: Ast, order: seq<nat>, uses: Uses, vars: seq<nat>) returns (result: map<nat, set<nat>>)
    requires Rooted(a, 0) && IsPostOrder(a, 0, order)
    requires forall v :: v in vars ==> UsageNodes(Pairs(a, 0), uses, v) != {}
    ensures Assigns(a, uses, (set v | v in vars), result)
  {
    var mapping := new BlockToNode();
    mapping.Compute(a, 0);
    var pairs := mapping.pairs;
    assert pairs == Pairs(a, 0);
    var usages := map v | v in vars :: UsageNodes(pairs, uses, v);
    UsagesAreValid(a, uses, vars, usages);
    var pending := MakePending(vars);
    ghost var before := pending[..];
    result := ComputeVarDeclMap(a, 0, order, usages, pending);
    AssignsFrom(a, uses, vars, usages, before, result);
  }

  /** The variables a function declares, from the blocks that use them to the printed
      declarations: all uses are in scope, every declaration is printed once. */
  method DeclareVariables(a: Ast, order: seq<nat>, uses: Uses, vars: seq<nat>) returns (decls: Declarations)
    requires Rooted(a, 0) && OneDefault(a) && IsPostOrder(a, 0, order)
    requires forall v :: v in vars ==> UsageNodes(Pairs(a, 0), uses, v) != {}
    requires forall p, v :: p in Pairs(a, 0) && v in uses(p.0) ==> v in vars
    ensures ScopedAll(uses, Emit(a, 0, decls, [], 0).code, {})
    ensures forall v :: v in vars ==> CountAll(Emit(a, 0, decls, [], 0).code, v) == 1
  {
    var result := AssignVariables(a, order, uses, vars);
    decls := ListAll(result);
    UsesAreInScope(a, uses, (set v | v in vars), result, decls);
  }
}

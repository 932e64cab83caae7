/** What the fallthrough analysis says, and which branches the two passes move that rely on
    it. */
module FallThroughResults {
  import opened Ghast
  import opened FallThrough

  // ----- The ways through a node -----

  /** The statements that the ways through `a` end with. */
  function Exits(a: Ast): (r: seq<Ast>)
    ensures r != []
  {
    match a
    case Seq(nodes) => if nodes == [] then [Null] else Exits(nodes[|nodes| - 1])
    case If(_, thn, els) => Exits(thn) + Exits(els)
    case Switch(_, cases, _, _) =>
      if cases != [] && exists i :: 0 <= i < |cases| && cases[i].labels == [] then CaseExits(cases) else [Null]
    case _ => [a]
  }

  function CaseExits(cases: seq<Case>): (r: seq<Ast>)
    requires cases != []
    ensures r != []
  {
    if |cases| == 1 then Exits(cases[0].body)
    else CaseExits(cases[..|cases| - 1]) + Exits(cases[|cases| - 1].body)
  }

  /** The statements that control does not flow past, and the classification of each. */
  predicate Leaves(x: Ast, t: ScopeType) {
    match t
    case Return => x.Code? && x.end.Returns?
    case CallNoReturn => x.Code? && x.end.CallsNoReturn?
    case ContinueScope => x.Continue?
    case LoopBreak => x.Break?
    case MixedNoFallThrough => || (x.Code? && !x.end.Jumps?) || x.Continue? || x.Break?
    case FallsThrough => false
  }

  predicate AllLeave(xs: seq<Ast>, t: ScopeType) {
    forall x :: x in xs ==> Leaves(x, t)
  }

  /** `t` is what all the ways end with, if that is one kind of statement. */
  predicate Classifies(t: ScopeType, xs: seq<Ast>) {
    && (t.Return? <==> AllLeave(xs, Return))
    && (t.CallNoReturn? <==> AllLeave(xs, CallNoReturn))
    && (t.ContinueScope? <==> AllLeave(xs, ContinueScope))
    && (t.LoopBreak? <==> AllLeave(xs, LoopBreak))
    && (t.FallsThrough? <==> !AllLeave(xs, MixedNoFallThrough))
  }

  lemma {:induction false} AllLeaveBoth(xs: seq<Ast>, ys: seq<Ast>, t: ScopeType)
    ensures AllLeave(xs + ys, t) <==> AllLeave(xs, t) && AllLeave(ys, t)
  {
    if AllLeave(xs + ys, t) {
      forall x | x in xs ensures Leaves(x, t) { assert x in xs + ys; }
      forall y | y in ys ensures Leaves(y, t) { assert y in xs + ys; }
    }
  }

  lemma {:induction false} CombineClassifies(s: ScopeType, xs: seq<Ast>, t: ScopeType, ys: seq<Ast>)
    requires Classifies(s, xs) && Classifies(t, ys)
    ensures Classifies(CombineTypes(s, t), xs + ys)
  {
    AllLeaveBoth(xs, ys, Return);
    AllLeaveBoth(xs, ys, CallNoReturn);
    AllLeaveBoth(xs, ys, ContinueScope);
    AllLeaveBoth(xs, ys, LoopBreak);
    AllLeaveBoth(xs, ys, MixedNoFallThrough);
  }

  lemma {:induction false} LeafClassifies(a: Ast)
    requires !a.Seq? && !a.If? && !a.Switch?
    ensures Classifies(ScopeOf(a), [a])
  {
    assert a in [a];
  }

  lemma {:induction false} DefaultExists(cases: seq<Case>)
    ensures DefaultCase(cases) < |cases| <==> exists i :: 0 <= i < |cases| && cases[i].labels == []
  {
    if cases != [] && cases[0].labels != [] {
      DefaultExists(cases[1..]);
      forall i | 1 <= i < |cases| && cases[i].labels == []
        ensures exists j :: 0 <= j < |cases[1..]| && cases[1..][j].labels == []
      {
        assert cases[1..][i - 1].labels == [];
      }
    }
  }

  /** The analysis classifies a node by the statements that the ways through it end with: as
      one of the four kinds exactly when all of them are of that kind, and as falling through
      exactly when control flows past some of them. */
  lemma {:induction false} ScopeClassifies(a: Ast)
    ensures Classifies(ScopeOf(a), Exits(a))
    decreases a, 0
  {
    match a
    case Seq(nodes) => if nodes != [] { ScopeClassifies(nodes[|nodes| - 1]); } else { LeafClassifies(Null); }
    case If(_, thn, els) =>
      ScopeClassifies(thn);
      ScopeClassifies(els);
      CombineClassifies(ScopeOf(thn), Exits(thn), ScopeOf(els), Exits(els));
    case Switch(_, cases, _, _) =>
      DefaultExists(cases);
      if DefaultCase(cases) < |cases| { CasesClassify(cases); } else { LeafClassifies(Null); }
    case _ => LeafClassifies(a);
  }

  lemma {:induction false} CasesClassify(cases: seq<Case>)
    requires cases != []
    ensures Classifies(CombineCases(cases), CaseExits(cases))
    decreases cases, 1
  {
    var last := cases[|cases| - 1].body;
    ScopeClassifies(last);
    if |cases| > 1 {
      var init := cases[..|cases| - 1];
      CasesClassify(init);
      CombineClassifies(CombineCases(init), CaseExits(init), ScopeOf(last), Exits(last));
    }
  }

  // ----- Promotion -----

  lemma {:induction false} FallsIff(cases: seq<Case>)
    requires cases != []
    ensures CombineCases(cases).FallsThrough? <==> exists i :: 0 <= i < |cases| && ScopeOf(cases[i].body).FallsThrough?
  {
    if |cases| > 1 {
      var init := cases[..|cases| - 1];
      FallsIff(init);
      if i :| 0 <= i < |cases| && ScopeOf(cases[i].body).FallsThrough? {
        assert i < |init| ==> ScopeOf(init[i].body).FallsThrough?;
      }
    }
  }

  /** Promotion does not change which nodes fall through. */
  lemma {:induction false} PromoteKeepsFalling(a: Ast)
    ensures ScopeOf(Promote(a)).FallsThrough? <==> ScopeOf(a).FallsThrough?
  {
    match a
    case Seq(nodes) => if nodes != [] { PromoteKeepsFalling(nodes[|nodes| - 1]); }
    case If(cond, thn, els) =>
      PromoteKeepsFalling(thn);
      PromoteKeepsFalling(els);
      PromotedIfKeepsFalling(cond, thn, els);
    case Switch(_, cases, _, _) =>
      PromoteKeepsDefault(cases);
      if DefaultCase(cases) < |cases| { PromoteKeepsCases(cases); }
    case _ =>
  }

  lemma {:induction false} PromoteKeepsDefault(cases: seq<Case>)
    ensures DefaultCase(PromoteCases(cases)) < |cases| <==> DefaultCase(cases) < |cases|
  {
    DefaultExists(cases);
    DefaultExists(PromoteCases(cases));
  }

  lemma {:induction false} PromotedIfKeepsFalling(cond: Condition, thn: Ast, els: Ast)
    requires ScopeOf(Promote(thn)).FallsThrough? <==> ScopeOf(thn).FallsThrough?
    requires ScopeOf(Promote(els)).FallsThrough? <==> ScopeOf(els).FallsThrough?
    ensures ScopeOf(Promote(If(cond, thn, els))).FallsThrough? <==> ScopeOf(If(cond, thn, els)).FallsThrough?
  {
  }

  lemma {:induction false} PromoteKeepsCases(cases: seq<Case>)
    requires cases != []
    ensures CombineCases(PromoteCases(cases)).FallsThrough? <==> CombineCases(cases).FallsThrough?
  {
    FallsIff(cases);
    FallsIff(PromoteCases(cases));
    forall i | 0 <= i < |cases|
      ensures ScopeOf(PromoteCases(cases)[i].body).FallsThrough? <==> ScopeOf(cases[i].body).FallsThrough?
    {
      PromoteKeepsFalling(cases[i].body);
    }
  }

  /** Every `if` with two branches falls through on both. */
  predicate BranchesFall(a: Ast) {
    match a
    case If(_, thn, els) =>
      && BranchesFall(thn) && BranchesFall(els)
      && (!thn.Null? && !els.Null? ==> ScopeOf(thn).FallsThrough? && ScopeOf(els).FallsThrough?)
    case Scs(_, body) => BranchesFall(body)
    case Seq(nodes) => forall i :: 0 <= i < |nodes| ==> BranchesFall(nodes[i])
    case Switch(_, cases, _, _) => forall i :: 0 <= i < |cases| ==> BranchesFall(cases[i].body)
    case _ => true
  }

  /** Nothing is left to promote. */
  lemma {:induction false} PromoteIsComplete(a: Ast)
    ensures BranchesFall(Promote(a))
  {
    match a
    case Seq(nodes) => forall i | 0 <= i < |nodes| { PromoteIsComplete(nodes[i]); }
    case Scs(_, body) => PromoteIsComplete(body);
    case If(_, thn, els) =>
      PromoteIsComplete(thn);
      PromoteIsComplete(els);
      PromoteKeepsFalling(thn);
      PromoteKeepsFalling(els);
    case Switch(_, cases, _, _) => forall i | 0 <= i < |cases| { PromoteIsComplete(cases[i].body); }
    case _ =>
  }

  /** `x` stays inside of the `if`, on the side of its condition, and `y` moves behind it. */
  predicate MovesOut(r: Ast, cond: Condition, thenMoves: bool, x: Ast, y: Ast) {
    r == Seq([if thenMoves then If(cond, Null, x) else If(cond, x, Null), y])
  }

  /** Where neither branch falls through, the lighter one stays, and the `then` moves on a
      tie. */
  lemma {:induction false} LighterStays(cond: Condition, thn: Ast, els: Ast)
    requires !ScopeOf(thn).FallsThrough? && !ScopeOf(els).FallsThrough?
    ensures Weight(els) <= Weight(thn) ==> MovesOut(Promote(If(cond, thn, els)), cond, true, Promote(els), Promote(thn))
    ensures Weight(thn) < Weight(els) ==> MovesOut(Promote(If(cond, thn, els)), cond, false, Promote(thn), Promote(els))
  {
  }

  /** Where one branch falls through, the other one stays. */
  lemma {:induction false} NonFallingStays(cond: Condition, thn: Ast, els: Ast)
    requires !thn.Null? && !els.Null? && ScopeOf(thn).FallsThrough? != ScopeOf(els).FallsThrough?
    ensures ScopeOf(els).FallsThrough? ==>
              MovesOut(Promote(If(cond, thn, els)), cond, false, Promote(thn), Promote(els))
    ensures ScopeOf(thn).FallsThrough? ==>
              MovesOut(Promote(If(cond, thn, els)), cond, true, Promote(els), Promote(thn))
  {
  }

  // ----- Weights -----

  /** All statements of a tree, each in front of those inside of it. */
  function Statements(a: Ast): seq<Ast> {
    match a
    case If(_, thn, els) => [a] + Statements(thn) + Statements(els)
    case Scs(_, body) => [a] + Statements(body)
    case Seq(nodes) => [a] + StatementsOf(nodes)
    case Switch(_, cases, _, _) => [a] + CaseStatements(cases)
    case _ => [a]
  }

  function StatementsOf(nodes: seq<Ast>): seq<Ast> {
    if nodes == [] then [] else Statements(nodes[0]) + StatementsOf(nodes[1..])
  }

  function CaseStatements(cases: seq<Case>): seq<Ast> {
    if cases == [] then [] else Statements(cases[0].body) + CaseStatements(cases[1..])
  }

  /** Code weighs its instructions, a continue those of the condition that is computed in
      front of it, a sequence nothing, and every other statement one. */
  function Points(x: Ast): nat {
    if x.Code? then x.bb.size
    else if x.Continue? && x.computation.Computes? then 1 + x.computation.cond.origin.size
    else if x.Null? || x.Seq? || x.Continue? then 0
    else 1
  }

  function Sum(xs: seq<Ast>): nat {
    if xs == [] then 0 else Points(xs[0]) + Sum(xs[1..])
  }

  lemma {:induction false} SumBoth(xs: seq<Ast>, ys: seq<Ast>)
    ensures Sum(xs + ys) == Sum(xs) + Sum(ys)
    decreases |xs|
  {
    if xs == [] {
      assert xs + ys == ys;
    } else {
      assert (xs + ys)[0] == xs[0] && (xs + ys)[1..] == xs[1..] + ys;
      SumBoth(xs[1..], ys);
    }
  }

  /** The weight of a tree is the sum over its statements. */
  lemma {:induction false} WeightIsSum(a: Ast)
    ensures Weight(a) == Sum(Statements(a))
    decreases a, 0
  {
    assert Sum([a]) == Points(a) + Sum([a][1..]);
    match a
    case If(_, thn, els) =>
      WeightIsSum(thn);
      WeightIsSum(els);
      SumBoth([a] + Statements(thn), Statements(els));
      SumBoth([a], Statements(thn));
    case Scs(_, body) =>
      WeightIsSum(body);
      SumBoth([a], Statements(body));
    case Seq(nodes) =>
      WeightsAreSum(nodes);
      SumBoth([a], StatementsOf(nodes));
    case Switch(_, cases, _, _) =>
      CaseWeightsAreSum(cases);
      SumBoth([a], CaseStatements(cases));
    case _ =>
  }

  lemma {:induction false} WeightsAreSum(nodes: seq<Ast>)
    ensures WeightSeq(nodes) == Sum(StatementsOf(nodes))
    decreases nodes, 0
  {
    if nodes != [] {
      WeightIsSum(nodes[0]);
      WeightsAreSum(nodes[1..]);
      SumBoth(Statements(nodes[0]), StatementsOf(nodes[1..]));
    }
  }

  lemma {:induction false} CaseWeightsAreSum(cases: seq<Case>)
    ensures WeightCases(cases) == Sum(CaseStatements(cases))
    decreases cases, 0
  {
    if cases != [] {
      WeightIsSum(cases[0].body);
      CaseWeightsAreSum(cases[1..]);
      SumBoth(Statements(cases[0].body), CaseStatements(cases[1..]));
    }
  }

  // ----- Pushing down -----

  /** Every way returns, or every way continues, or every way breaks. */
  predicate LeavesScope(a: Ast) {
    AllLeave(Exits(a), Return) || AllLeave(Exits(a), ContinueScope) || AllLeave(Exits(a), LoopBreak)
  }

  /** An `if` without `else` whose `then` leaves the scope. */
  predicate GivesWay(x: Ast) {
    x.If? && x.els.Null? && LeavesScope(x.thn)
  }

  /** The sequence ends in calls that do not return, and an earlier child gives way to them. */
  predicate TradesAt(nodes: seq<Ast>, i: nat) {
    && i < |nodes| - 1
    && AllLeave(Exits(nodes[|nodes| - 1]), CallNoReturn)
    && GivesWay(nodes[i]) && (forall j :: i < j < |nodes| - 1 ==> !GivesWay(nodes[j]))
  }

  lemma {:induction false} GivesWayIff(x: Ast)
    ensures GivesWay(x) <==> Candidate(x)
  {
    if x.If? { ScopeClassifies(x.thn); }
  }

  lemma {:induction false} TradesAtIff(nodes: seq<Ast>, i: nat)
    ensures TradesAt(nodes, i)
       <==> (|nodes| > 1 && ScopeOf(nodes[|nodes| - 1]).CallNoReturn? && LastCandidate(nodes, |nodes| - 1) == i)
  {
    if nodes != [] { ScopeClassifies(nodes[|nodes| - 1]); }
    forall j | 0 <= j < |nodes| ensures GivesWay(nodes[j]) <==> Candidate(nodes[j]) { GivesWayIff(nodes[j]); }
  }

  lemma PushDownKeepsNull(a: Ast)
    ensures PushDown(a).Null? <==> a.Null?
  {
  }

  /** The children afterwards; `pushed` are those of `nodes` after their own treatment. */
  function Traded(nodes: seq<Ast>, pushed: seq<Ast>, i: nat): seq<Ast>
    requires i < |nodes| == |pushed| && nodes[i].If?
  {
    pushed[..i] + [If(nodes[i].cond, Null, Seq(pushed[i + 1..])), PushDown(nodes[i].thn)]
  }

  /** In a sequence, the last child that gives way trades places with everything behind it:
      its `then` comes last, and what followed becomes its `else`. */
  lemma {:induction false} PushDownTrades(nodes: seq<Ast>, i: nat)
    requires TradesAt(nodes, i)
    ensures PushDown(Seq(nodes)) == Seq(Traded(nodes, PushDownSeq(nodes), i))
  {
    TradesAtIff(nodes, i);
    TradedIsSwapped(nodes, PushDownSeq(nodes), i);
  }

  lemma {:induction false} TradedIsSwapped(nodes: seq<Ast>, pushed: seq<Ast>, i: nat)
    requires |nodes| > 1 && ScopeOf(nodes[|nodes| - 1]).CallNoReturn? && LastCandidate(nodes, |nodes| - 1) == i
    requires |pushed| == |nodes| && pushed[i] == PushDown(nodes[i])
    requires forall j :: 0 <= j < |nodes| ==> nodes[j].If? ==> pushed[j].If?
    ensures Swapped(nodes, pushed) == Traded(nodes, pushed, i)
  {
    assert pushed[i].cond == nodes[i].cond && pushed[i].thn == PushDown(nodes[i].thn);
  }

  /** The children of a sequence stay where they are exactly when none gives way. */
  lemma {:induction false} PushDownTradesIff(nodes: seq<Ast>)
    ensures PushDown(Seq(nodes)) == Seq(PushDownSeq(nodes)) <==> forall i :: 0 <= i < |nodes| ==> !TradesAt(nodes, i)
  {
    var pushed := PushDownSeq(nodes);
    if i :| 0 <= i < |nodes| && TradesAt(nodes, i) {
      PushDownTrades(nodes, i);
      assert pushed[i] == If(nodes[i].cond, PushDown(nodes[i].thn), Null);
      ThenIsThere(nodes[i].thn);
      assert PushDown(Seq(nodes)).nodes[i].thn == Null;
    } else if |nodes| > 1 && ScopeOf(nodes[|nodes| - 1]).CallNoReturn? {
      var i := LastCandidate(nodes, |nodes| - 1);
      if i >= 0 { TradesAtIff(nodes, i); }
    }
  }

  lemma {:induction false} Within(nodes: seq<Ast>, k: nat, x: Ast)
    requires k < |nodes| && x in Statements(nodes[k])
    ensures x in StatementsOf(nodes)
  {
    if k > 0 { Within(nodes[1..], k - 1, x); }
  }

  lemma {:induction false} WithinCase(cases: seq<Case>, k: nat, x: Ast)
    requires k < |cases| && x in Statements(cases[k].body)
    ensures x in CaseStatements(cases)
  {
    if k > 0 { WithinCase(cases[1..], k - 1, x); }
  }

  lemma {:induction false} InWhich(nodes: seq<Ast>, x: Ast) returns (k: nat)
    requires x in StatementsOf(nodes)
    ensures k < |nodes| && x in Statements(nodes[k])
  {
    if x in Statements(nodes[0]) {
      k := 0;
    } else {
      k := InWhich(nodes[1..], x);
      k := k + 1;
    }
  }

  lemma {:induction false} InWhichCase(cases: seq<Case>, x: Ast) returns (k: nat)
    requires x in CaseStatements(cases)
    ensures k < |cases| && x in Statements(cases[k].body)
  {
    if x in Statements(cases[0].body) {
      k := 0;
    } else {
      k := InWhichCase(cases[1..], x);
      k := k + 1;
    }
  }

  /** A statement of a child that stays, or of the `then` that moves, is still there. */
  lemma {:induction false} TradedKeeps(nodes: seq<Ast>, pushed: seq<Ast>, i: nat, k: nat, x: Ast)
    requires i < |nodes| == |pushed| && nodes[i].If? && k < |nodes|
    requires x in Statements(if k == i then PushDown(nodes[i].thn) else pushed[k])
    ensures x in StatementsOf(Traded(nodes, pushed, i))
  {
    var traded := Traded(nodes, pushed, i);
    if k < i {
      Within(traded, k, x);
    } else if k == i {
      Within(traded, i + 1, x);
    } else {
      var rest := pushed[i + 1..];
      Within(rest, k - i - 1, x);
      assert x in Statements(Seq(rest));
      Within(traded, i, x);
    }
  }

  /** The pass treats every sequence of the tree, however deep it is nested. */
  lemma {:induction false} PushDownReaches(a: Ast, s: Ast)
    requires s in Statements(a) && s.Seq?
    ensures PushDown(s) in Statements(PushDown(a))
    decreases a
  {
    match a
    case If(_, thn, els) =>
      if s in Statements(thn) { PushDownReaches(thn, s); } else { PushDownReaches(els, s); }
    case Scs(_, body) => PushDownReaches(body, s);
    case Seq(nodes) =>
      if s != a {
        var k := InWhich(nodes, s);
        PushDownReaches(nodes[k], s);
        if GivesWay(nodes[k]) { PushDownReaches(nodes[k].thn, s); }
        NodeReached(nodes, k, PushDown(s));
      }
    case Switch(_, cases, _, _) =>
      var k := InWhichCase(cases, s);
      PushDownReaches(cases[k].body, s);
      WithinCase(PushDownCases(cases), k, PushDown(s));
    case _ =>
  }

  lemma {:induction false} NodeReached(nodes: seq<Ast>, k: nat, x: Ast)
    requires k < |nodes| && x in Statements(PushDown(nodes[k]))
    requires GivesWay(nodes[k]) ==> x in Statements(PushDown(nodes[k].thn))
    ensures x in Statements(PushDown(Seq(nodes)))
  {
    var pushed := PushDownSeq(nodes);
    if i :| 0 <= i < |nodes| && TradesAt(nodes, i) {
      PushDownTrades(nodes, i);
      TradedReached(nodes, pushed, i, k, x);
    } else {
      PushDownTradesIff(nodes);
      Within(pushed, k, x);
    }
  }

  lemma {:induction false} TradedReached(nodes: seq<Ast>, pushed: seq<Ast>, i: nat, k: nat, x: Ast)
    requires i < |nodes| == |pushed| && nodes[i].If? && k < |nodes|
    requires x in Statements(pushed[k]) && (k == i ==> x in Statements(PushDown(nodes[i].thn)))
    ensures x in Statements(Seq(Traded(nodes, pushed, i)))
  {
    TradedKeeps(nodes, pushed, i, k, x);
  }

  lemma {:induction false} ThenIsThere(thn: Ast)
    requires LeavesScope(thn)
    ensures !PushDown(thn).Null?
  {
    PushDownKeepsNull(thn);
    assert Exits(thn)[0] in Exits(thn);
  }
}

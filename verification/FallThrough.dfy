/** The fallthrough analysis, and the two passes that rely on it to take branches
    out of `if` nodes. */
module FallThrough {
  import opened Ghast

  datatype ScopeType = FallsThrough | MixedNoFallThrough | CallNoReturn | Return | ContinueScope | LoopBreak

  function CombineTypes(first: ScopeType, second: ScopeType): ScopeType {
    if first == second then first
    else if first.FallsThrough? || second.FallsThrough? then FallsThrough
    else MixedNoFallThrough
  }

  /** The type that the analysis records for a node. */
  function ScopeOf(a: Ast): ScopeType {
    match a
    case Seq(nodes) => if nodes == [] then FallsThrough else ScopeOf(nodes[|nodes| - 1])
    case If(_, thn, els) => CombineTypes(ScopeOf(thn), ScopeOf(els))
    case Switch(_, cases, _, _) =>
      if DefaultCase(cases) < |cases| then CombineCases(cases) else FallsThrough
    case Code(_, end, _) =>
      (match end
       case Jumps => FallsThrough
       case Returns => Return
       case CallsNoReturn => CallNoReturn)
    case Continue(_, _) => ContinueScope
    case Break(_) => LoopBreak
    case _ => FallsThrough
  }

  function CombineCases(cases: seq<Case>): ScopeType
    requires cases != []
  {
    if |cases| == 1 then ScopeOf(cases[0].body)
    else CombineTypes(CombineCases(cases[..|cases| - 1]), ScopeOf(cases[|cases| - 1].body))
  }

  /** No statement has been made implicit yet, as these passes demand. */
  predicate Explicit(a: Ast) {
    match a
    case Code(_, _, implicitReturn) => !implicitReturn
    case Continue(_, implicit) => !implicit
    case If(_, thn, els) => Explicit(thn) && Explicit(els)
    case Scs(_, body) => Explicit(body)
    case Seq(nodes) => forall i :: 0 <= i < |nodes| ==> Explicit(nodes[i])
    case Switch(_, cases, _, _) => forall i :: 0 <= i < |cases| ==> Explicit(cases[i].body)
    case _ => true
  }

  /** No switch break inside `a` leaves a switch that encloses `a`. */
  predicate NoSwitchBreak(a: Ast) {
    match a
    case If(_, thn, els) => NoSwitchBreak(thn) && NoSwitchBreak(els)
    case Scs(_, body) => NoSwitchBreak(body)
    case Seq(nodes) => forall i :: 0 <= i < |nodes| ==> NoSwitchBreak(nodes[i])
    case SwitchBreak => false
    case _ => true
  }

  /** Switch breaks occur only where their case ends anyway. */
  predicate TailSwitchBreaks(a: Ast) {
    match a
    case If(_, thn, els) => TailSwitchBreaks(thn) && TailSwitchBreaks(els)
    case Scs(_, body) => TailSwitchBreaks(body) && NoSwitchBreak(body)
    case Seq(nodes) =>
      && (forall i :: 0 <= i < |nodes| ==> TailSwitchBreaks(nodes[i]))
      && (forall i :: 0 <= i < |nodes| - 1 ==> NoSwitchBreak(nodes[i]))
    case Switch(_, cases, _, _) => forall i :: 0 <= i < |cases| ==> TailSwitchBreaks(cases[i].body)
    case _ => true
  }

  /** What the analysis needs to be right about `a`. */
  predicate Analysable(a: Ast) {
    Explicit(a) && TailSwitchBreaks(a)
  }

  ghost predicate NeverFalls(w: World, a: Ast) {
    forall fuel: nat, h: History :: !Exec(w, fuel, a, h).out.Fell?
  }

  lemma {:induction false} NoSwitchBreakNeverBroke(w: World, fuel: nat, a: Ast, h: History)
    requires NoSwitchBreak(a)
    ensures !Exec(w, fuel, a, h).out.BrokeSwitch?
    decreases fuel, a, 0
  {
    match a
    case If(cond, thn, els) =>
      NoSwitchBreakNeverBroke(w, fuel, thn, RunCondition(cond, h));
      NoSwitchBreakNeverBroke(w, fuel, els, RunCondition(cond, h));
    case Scs(kind, body) =>
      LoopNoSwitchBreak(w, fuel, kind, body, if kind.While? then RunCondition(kind.related, h) else h);
    case Seq(nodes) => SeqNoSwitchBreak(w, fuel, nodes, h);
    case _ =>
  }

  lemma {:induction false} SeqNoSwitchBreak(w: World, fuel: nat, nodes: seq<Ast>, h: History)
    requires forall i :: 0 <= i < |nodes| ==> NoSwitchBreak(nodes[i])
    ensures !ExecSeq(w, fuel, nodes, h).out.BrokeSwitch?
    decreases fuel, nodes, 0
  {
    if nodes != [] {
      NoSwitchBreakNeverBroke(w, fuel, nodes[0], h);
      SeqNoSwitchBreak(w, fuel, nodes[1..], Exec(w, fuel, nodes[0], h).h);
    }
  }

  lemma {:induction false} LoopNoSwitchBreak(w: World, fuel: nat, kind: LoopKind, body: Ast, h: History)
    requires NoSwitchBreak(body)
    ensures !Loop(w, fuel, kind, body, h).out.BrokeSwitch?
    decreases fuel, body, 1
  {
    if fuel > 0 {
      NoSwitchBreakNeverBroke(w, fuel - 1, body, h);
      var step := AfterBody(w, kind, Exec(w, fuel - 1, body, h));
      if step.Again? { LoopNoSwitchBreak(w, fuel - 1, kind, body, step.h); }
    }
  }

  lemma {:induction false} CombineNeedsAll(cases: seq<Case>, k: nat)
    requires k < |cases| && !CombineCases(cases).FallsThrough?
    ensures !ScopeOf(cases[k].body).FallsThrough?
  {
    if k < |cases| - 1 {
      CombineNeedsAll(cases[..|cases| - 1], k);
    }
  }

  /** A node classified other than FallThrough neither completes normally nor
      leaves an enclosing switch. */
  lemma {:induction false} AnalysisSound(w: World, fuel: nat, a: Ast, h: History)
    requires Analysable(a) && !ScopeOf(a).FallsThrough?
    ensures var out := Exec(w, fuel, a, h).out; !out.Fell? && !out.BrokeSwitch?
    decreases a
  {
    match a
    case If(cond, thn, els) =>
      var h1 := RunCondition(cond, h);
      if Test(w, cond.expr, h1) { AnalysisSound(w, fuel, thn, h1); } else { AnalysisSound(w, fuel, els, h1); }
    case Seq(nodes) =>
      var init, last := nodes[..|nodes| - 1], nodes[|nodes| - 1];
      assert nodes == init + [last];
      ExecSeqAppend(w, fuel, init, [last], h);
      SeqNoSwitchBreak(w, fuel, init, h);
      var r := ExecSeq(w, fuel, init, h);
      AnalysisSound(w, fuel, last, r.h);
      assert ExecSeq(w, fuel, [last], r.h).out == Exec(w, fuel, last, r.h).out;
    case Switch(on, cases, _, _) =>
      var h1 := RunScrutinee(on, h);
      var k := SelectCase(cases, ScrutineeValue(w, on, h1));
      CombineNeedsAll(cases, k);
      AnalysisSound(w, fuel, cases[k].body, h1);
    case _ =>
  }

  lemma NonFallingNeverFalls(w: World, a: Ast)
    requires Analysable(a) && !ScopeOf(a).FallsThrough?
    ensures NeverFalls(w, a)
  {
    forall fuel: nat, h: History ensures !Exec(w, fuel, a, h).out.Fell? { AnalysisSound(w, fuel, a, h); }
  }

  /** Switch breaks may occur anywhere in `a`, but in the switches and loops inside of it
      only where their case ends anyway. */
  predicate InnerTails(a: Ast) {
    match a
    case If(_, thn, els) => InnerTails(thn) && InnerTails(els)
    case Scs(_, body) => TailSwitchBreaks(body) && NoSwitchBreak(body)
    case Seq(nodes) => forall i :: 0 <= i < |nodes| ==> InnerTails(nodes[i])
    case Switch(_, cases, _, _) => forall i :: 0 <= i < |cases| ==> TailSwitchBreaks(cases[i].body)
    case _ => true
  }

  /** A case classified other than FallThrough can still leave its switch, but not complete
      normally. */
  lemma {:induction false} NonFallingCase(w: World, fuel: nat, a: Ast, h: History)
    requires Explicit(a) && InnerTails(a) && !ScopeOf(a).FallsThrough?
    ensures !Exec(w, fuel, a, h).out.Fell?
    decreases a
  {
    match a
    case If(cond, thn, els) =>
      var h1 := RunCondition(cond, h);
      if Test(w, cond.expr, h1) { NonFallingCase(w, fuel, thn, h1); } else { NonFallingCase(w, fuel, els, h1); }
    case Seq(nodes) =>
      var init, last := nodes[..|nodes| - 1], nodes[|nodes| - 1];
      assert nodes == init + [last];
      ExecSeqAppend(w, fuel, init, [last], h);
      var r := ExecSeq(w, fuel, init, h);
      NonFallingCase(w, fuel, last, r.h);
      assert ExecSeq(w, fuel, [last], r.h).out == Exec(w, fuel, last, r.h).out;
    case Switch(_, _, _, _) => AnalysisSound(w, fuel, a, h);
    case _ =>
  }

  /** Which runs fool the analysis: a switch classified other than FallThrough completes
      normally exactly when the selected case reaches one of its switch breaks. */
  lemma {:induction false} SwitchFallsIff(w: World, fuel: nat, a: Ast, h: History)
    requires a.Switch? && Explicit(a) && !ScopeOf(a).FallsThrough?
    requires forall i :: 0 <= i < |a.cases| ==> InnerTails(a.cases[i].body)
    ensures var h1 := RunScrutinee(a.on, h);
            var k := SelectCase(a.cases, ScrutineeValue(w, a.on, h1));
            && k < |a.cases|
            && (Exec(w, fuel, a, h).out.Fell? <==> Exec(w, fuel, a.cases[k].body, h1).out.BrokeSwitch?)
  {
    var h1 := RunScrutinee(a.on, h);
    var k := SelectCase(a.cases, ScrutineeValue(w, a.on, h1));
    CombineNeedsAll(a.cases, k);
    NonFallingCase(w, fuel, a.cases[k].body, h1);
  }

  /** Without the tail condition the analysis is wrong: this switch is classified
      as Return, but a switch break in the middle of its default case makes it
      complete normally. */
  function MiddleSwitchBreak(): Ast {
    var b := Block(0, true, 1);
    Switch(OfLoopState,
           [Case([], Seq([If(Condition(Atomic(b), false, b), SwitchBreak, Null), Code(b, Returns, false)]))],
           false, false)
  }

  lemma MiddleSwitchBreakFools(fuel: nat, h: History)
    ensures ScopeOf(MiddleSwitchBreak()) == Return
    ensures Exec(World((_, _) => true, (_, _) => 0), fuel, MiddleSwitchBreak(), h).out == Fell
    ensures !TailSwitchBreaks(MiddleSwitchBreak())
  {
    var w := World((_, _) => true, (_, _) => 0);
    var b := Block(0, true, 1);
    var c := Condition(Atomic(b), false, b);
    var thn := If(c, SwitchBreak, Null);
    var nodes := [thn, Code(b, Returns, false)];
    assert nodes[|nodes| - 1] == Code(b, Returns, false);
    var cases := [Case([], Seq(nodes))];
    assert MiddleSwitchBreak() == Switch(OfLoopState, cases, false, false);
    assert ScopeOf(Seq(nodes)) == Return;
    assert CombineCases(cases) == Return;
    assert DefaultCase(cases) == 0;
    assert LabelledCase(cases, LoopState(h)) == 1;
    assert Test(w, c.expr, RunCondition(c, h));
    assert Exec(w, fuel, thn, h).out == BrokeSwitch;
    assert ExecSeq(w, fuel, nodes, h).out == BrokeSwitch;
    assert !NoSwitchBreak(nodes[0]);
  }

  // ----- Promotion of branches that do not fall through -----

  /** The size criterion that picks a branch when neither falls through. */
  function Weight(a: Ast): nat {
    match a
    case Null => 0
    case Seq(nodes) => WeightSeq(nodes)
    case Scs(_, body) => Weight(body) + 1
    case If(_, thn, els) => Weight(thn) + Weight(els) + 1
    case Switch(_, cases, _, _) => WeightCases(cases) + 1
    case Code(bb, _, _) => bb.size
    case Continue(computation, _) =>
      if computation.Computes? then computation.cond.origin.size + 1 else 0
    case _ => 1
  }

  function WeightSeq(nodes: seq<Ast>): nat {
    if nodes == [] then 0 else Weight(nodes[0]) + WeightSeq(nodes[1..])
  }

  function WeightCases(cases: seq<Case>): nat {
    if cases == [] then 0 else Weight(cases[0].body) + WeightCases(cases[1..])
  }

  datatype Choice = PromoteThen | PromoteElse | PromoteNeither

  function Choose(thn: ScopeType, els: ScopeType, thnWeight: nat, elsWeight: nat): Choice {
    if !thn.FallsThrough? && !els.FallsThrough? then (if thnWeight >= elsWeight then PromoteThen else PromoteElse)
    else if !thn.FallsThrough? then PromoteElse
    else if !els.FallsThrough? then PromoteThen
    else PromoteNeither
  }

  /** The promoted tree. The choice at an `if` depends on the types and weights
      that were computed before the pass. */
  function Promote(a: Ast): Ast {
    match a
    case Seq(nodes) => Seq(PromoteSeq(nodes))
    case Scs(kind, body) => Scs(kind, Promote(body))
    case If(cond, thn, els) =>
      if thn.Null? || els.Null? then If(cond, Promote(thn), Promote(els))
      else
        (match Choose(ScopeOf(thn), ScopeOf(els), Weight(thn), Weight(els))
         case PromoteElse => Seq([If(cond, Promote(thn), Null), Promote(els)])
         case PromoteThen => Seq([If(cond, Null, Promote(els)), Promote(thn)])
         case PromoteNeither => If(cond, Promote(thn), Promote(els)))
    case Switch(on, cases, v, d) => Switch(on, PromoteCases(cases), v, d)
    case _ => a
  }

  function PromoteSeq(nodes: seq<Ast>): (r: seq<Ast>)
    ensures |r| == |nodes|
    ensures forall i :: 0 <= i < |r| ==> r[i] == Promote(nodes[i])
  {
    if nodes == [] then [] else [Promote(nodes[0])] + PromoteSeq(nodes[1..])
  }

  function PromoteCases(cases: seq<Case>): (r: seq<Case>)
    ensures |r| == |cases|
    ensures forall i :: 0 <= i < |r| ==> r[i] == Case(cases[i].labels, Promote(cases[i].body))
  {
    if cases == [] then [] else [Case(cases[0].labels, Promote(cases[0].body))] + PromoteCases(cases[1..])
  }

  lemma PairRuns(w: World, fuel: nat, a: Ast, b: Ast, h: History)
    ensures Exec(w, fuel, Seq([a, b]), h)
         == (var r := Exec(w, fuel, a, h); if r.out.Fell? then Exec(w, fuel, b, r.h) else r)
  {
    assert [a, b][1..] == [b] && [b][1..] == [];
    var r := Exec(w, fuel, a, h);
    assert ExecSeq(w, fuel, [a, b], h) == if r.out.Fell? then ExecSeq(w, fuel, [b], r.h) else r;
    var r1 := Exec(w, fuel, b, r.h);
    assert ExecSeq(w, fuel, [b], r.h) == if r1.out.Fell? then ExecSeq(w, fuel, [], r1.h) else r1;
  }

  lemma ElsePromoted(w: World, cond: Condition, t: Ast, e: Ast)
    requires NeverFalls(w, t)
    ensures Equivalent(w, If(cond, t, e), Seq([If(cond, t, Null), e]))
  {
    forall fuel: nat, h: History
      ensures Exec(w, fuel, If(cond, t, e), h) == Exec(w, fuel, Seq([If(cond, t, Null), e]), h)
    {
      PairRuns(w, fuel, If(cond, t, Null), e, h);
      assert !Exec(w, fuel, t, RunCondition(cond, h)).out.Fell?;
    }
  }

  lemma ThenPromoted(w: World, cond: Condition, t: Ast, e: Ast)
    requires NeverFalls(w, e)
    ensures Equivalent(w, If(cond, t, e), Seq([If(cond, Null, e), t]))
  {
    forall fuel: nat, h: History
      ensures Exec(w, fuel, If(cond, t, e), h) == Exec(w, fuel, Seq([If(cond, Null, e), t]), h)
    {
      PairRuns(w, fuel, If(cond, Null, e), t, h);
      assert !Exec(w, fuel, e, RunCondition(cond, h)).out.Fell?;
    }
  }

  lemma EquivalentNeverFalls(w: World, a: Ast, b: Ast)
    requires NeverFalls(w, a) && Equivalent(w, a, b)
    ensures NeverFalls(w, b)
  {
    forall fuel: nat, h: History ensures !Exec(w, fuel, b, h).out.Fell? {
      assert Exec(w, fuel, a, h) == Exec(w, fuel, b, h);
    }
  }

  lemma EquivalentTrans(w: World, a: Ast, b: Ast, c: Ast)
    requires Equivalent(w, a, b) && Equivalent(w, b, c)
    ensures Equivalent(w, a, c)
  {
    forall fuel: nat, h: History ensures Exec(w, fuel, a, h) == Exec(w, fuel, c, h) {
      assert Exec(w, fuel, a, h) == Exec(w, fuel, b, h);
    }
  }

  /** Promotion keeps the outcome and the trace of every run. */
  lemma {:induction false} PromotePreserves(w: World, a: Ast)
    requires Analysable(a)
    ensures Equivalent(w, a, Promote(a))
  {
    match a
    case Seq(nodes) =>
      forall i | 0 <= i < |nodes| ensures Equivalent(w, nodes[i], PromoteSeq(nodes)[i]) {
        PromotePreserves(w, nodes[i]);
      }
      SeqCongruence(w, nodes, PromoteSeq(nodes));
    case Scs(kind, body) =>
      PromotePreserves(w, body);
      ScsCongruence(w, kind, body, Promote(body));
    case If(cond, thn, els) =>
      PromotePreserves(w, thn);
      PromotePreserves(w, els);
      PromotedIfPreserves(w, cond, thn, els, Promote(thn), Promote(els));
    case Switch(on, cases, v, d) =>
      forall i | 0 <= i < |cases| ensures Equivalent(w, cases[i].body, PromoteCases(cases)[i].body) {
        PromotePreserves(w, cases[i].body);
      }
      SwitchCongruence(w, on, cases, PromoteCases(cases), v, d, v, d);
    case _ =>
  }

  lemma PromotedIfPreserves(w: World, cond: Condition, thn: Ast, els: Ast, thn': Ast, els': Ast)
    requires Analysable(thn) && Analysable(els)
    requires Equivalent(w, thn, thn') && Equivalent(w, els, els')
    ensures Equivalent(w, If(cond, thn, els), If(cond, thn', els'))
    ensures !ScopeOf(thn).FallsThrough? ==> Equivalent(w, If(cond, thn, els), Seq([If(cond, thn', Null), els']))
    ensures !ScopeOf(els).FallsThrough? ==> Equivalent(w, If(cond, thn, els), Seq([If(cond, Null, els'), thn']))
  {
    IfCongruence(w, cond, thn, thn', els, els');
    if !ScopeOf(thn).FallsThrough? {
      NonFallingNeverFalls(w, thn);
      EquivalentNeverFalls(w, thn, thn');
      ElsePromoted(w, cond, thn', els');
      EquivalentTrans(w, If(cond, thn, els), If(cond, thn', els'), Seq([If(cond, thn', Null), els']));
    }
    if !ScopeOf(els).FallsThrough? {
      NonFallingNeverFalls(w, els);
      EquivalentNeverFalls(w, els, els');
      ThenPromoted(w, cond, thn', els');
      EquivalentTrans(w, If(cond, thn, els), If(cond, thn', els'), Seq([If(cond, Null, els'), thn']));
    }
  }

  /** An `if` with one branch, which never falls: it completes normally exactly where the
      test asks for the other branch. */
  lemma {:induction false} OneArmedFallsIff(w: World, cond: Condition, b: Ast, thenStays: bool)
    requires NeverFalls(w, b)
    ensures NeverFalls(w, if thenStays then If(cond, b, Null) else If(cond, Null, b))
       <==> AlwaysTests(w, cond, thenStays)
  {
    var a := if thenStays then If(cond, b, Null) else If(cond, Null, b);
    forall fuel: nat, h: History
      ensures Exec(w, fuel, a, h).out.Fell? <==> Test(w, cond.expr, RunCondition(cond, h)) != thenStays
    {
      assert !Exec(w, fuel, b, RunCondition(cond, h)).out.Fell?;
    }
    if NeverFalls(w, a) {
      forall h: History ensures Test(w, cond.expr, RunCondition(cond, h)) == thenStays {
        assert !Exec(w, 0, a, h).out.Fell?;
      }
    }
  }

  ghost predicate AlwaysTests(w: World, cond: Condition, value: bool) {
    forall h: History :: Test(w, cond.expr, RunCondition(cond, h)) == value
  }

  /** An atomic test can have either result. */
  lemma {:induction false} AtomicTestIsFree(cond: Condition, value: bool)
    requires cond.expr.Atomic?
    ensures exists w: World :: !AlwaysTests(w, cond, value)
  {
    var w := World((_, _) => !value, (_, _) => 0);
    assert Test(w, cond.expr, RunCondition(cond, [])) == !value;
    assert !AlwaysTests(w, cond, value);
  }

  // ----- Pushing down the scope in front of a call that does not return -----

  predicate PreferredAsFallThrough(t: ScopeType) {
    t.Return? || t.ContinueScope? || t.LoopBreak?
  }

  /** An `if` without `else` whose `then` should trade places with what follows. */
  predicate Candidate(before: Ast) {
    before.If? && before.els.Null? && PreferredAsFallThrough(ScopeOf(before.thn))
  }

  /** The last candidate among the first `n` nodes, or -1. */
  function LastCandidate(nodes: seq<Ast>, n: nat): (i: int)
    requires n <= |nodes|
    ensures -1 <= i < n
    ensures i >= 0 ==> Candidate(nodes[i])
    ensures forall j :: i < j < n ==> !Candidate(nodes[j])
  {
    if n == 0 then -1 else if Candidate(nodes[n - 1]) then n - 1 else LastCandidate(nodes, n - 1)
  }

  /** The children after the swap; `before` holds the children that the analysis saw. */
  function Swapped(before: seq<Ast>, nodes: seq<Ast>): seq<Ast>
    requires |before| == |nodes|
    requires forall i :: 0 <= i < |nodes| ==> before[i].If? ==> nodes[i].If?
  {
    var n := |before|;
    if n > 1 && ScopeOf(before[n - 1]).CallNoReturn? then
      var i := LastCandidate(before, n - 1);
      if i < 0 then nodes
      else nodes[..i] + [If(nodes[i].cond, Null, Seq(nodes[i + 1..])), nodes[i].thn]
    else nodes
  }

  function PushDown(a: Ast): (r: Ast)
    ensures a.If? ==> r == If(a.cond, PushDown(a.thn), PushDown(a.els))
  {
    match a
    case Seq(nodes) => Seq(Swapped(nodes, PushDownSeq(nodes)))
    case Scs(kind, body) => Scs(kind, PushDown(body))
    case If(cond, thn, els) => If(cond, PushDown(thn), PushDown(els))
    case Switch(on, cases, v, d) => Switch(on, PushDownCases(cases), v, d)
    case _ => a
  }

  function PushDownSeq(nodes: seq<Ast>): (r: seq<Ast>)
    ensures |r| == |nodes|
    ensures forall i :: 0 <= i < |r| ==> r[i] == PushDown(nodes[i])
  {
    if nodes == [] then [] else [PushDown(nodes[0])] + PushDownSeq(nodes[1..])
  }

  function PushDownCases(cases: seq<Case>): (r: seq<Case>)
    ensures |r| == |cases|
    ensures forall i :: 0 <= i < |r| ==> r[i] == Case(cases[i].labels, PushDown(cases[i].body))
  {
    if cases == [] then [] else [Case(cases[0].labels, PushDown(cases[0].body))] + PushDownCases(cases[1..])
  }

  /** Pushing down keeps the outcome and the trace of every run. */
  lemma {:induction false} PushDownPreserves(w: World, a: Ast)
    requires Analysable(a)
    ensures Equivalent(w, a, PushDown(a))
  {
    match a
    case Seq(nodes) =>
      var pushed := PushDownSeq(nodes);
      forall i | 0 <= i < |nodes| ensures Equivalent(w, nodes[i], pushed[i]) {
        PushDownPreserves(w, nodes[i]);
      }
      SeqCongruence(w, nodes, pushed);
      forall i | 0 <= i < |nodes| && nodes[i].If? ensures Equivalent(w, nodes[i].thn, PushDown(nodes[i].thn)) {
        assert Analysable(nodes[i]);
        PushDownPreserves(w, nodes[i].thn);
      }
      SwapPreserves(w, nodes, pushed);
      EquivalentTrans(w, a, Seq(pushed), PushDown(a));
    case Scs(kind, body) =>
      PushDownPreserves(w, body);
      ScsCongruence(w, kind, body, PushDown(body));
    case If(cond, thn, els) =>
      PushDownPreserves(w, thn);
      PushDownPreserves(w, els);
      IfCongruence(w, cond, thn, PushDown(thn), els, PushDown(els));
    case Switch(on, cases, v, d) =>
      forall i | 0 <= i < |cases| ensures Equivalent(w, cases[i].body, PushDownCases(cases)[i].body) {
        PushDownPreserves(w, cases[i].body);
      }
      SwitchCongruence(w, on, cases, PushDownCases(cases), v, d, v, d);
    case _ =>
  }

  lemma {:induction false} SwapPreserves(w: World, nodes: seq<Ast>, pushed: seq<Ast>)
    requires Analysable(Seq(nodes)) && pushed == PushDownSeq(nodes)
    requires forall i :: 0 <= i < |nodes| ==> Equivalent(w, nodes[i], pushed[i])
    requires forall i :: 0 <= i < |nodes| && nodes[i].If? ==> Equivalent(w, nodes[i].thn, PushDown(nodes[i].thn))
    ensures Equivalent(w, Seq(pushed), Seq(Swapped(nodes, pushed)))
  {
    var n := |nodes|;
    if n > 1 && ScopeOf(nodes[n - 1]).CallNoReturn? && LastCandidate(nodes, n - 1) >= 0 {
      var i := LastCandidate(nodes, n - 1);
      assert Analysable(nodes[i]) && Analysable(nodes[n - 1]);
      assert Candidate(nodes[i]) && pushed[i] == PushDown(nodes[i]) && pushed[n - 1] == PushDown(nodes[n - 1]);
      PushedNeverFalls(w, nodes[i].thn);
      PushedNeverFalls(w, nodes[n - 1]);
      SwapOne(w, pushed, i);
      assert Swapped(nodes, pushed)
          == pushed[..i] + [If(pushed[i].cond, Null, Seq(pushed[i + 1..])), pushed[i].thn];
    }
  }

  lemma PushedNeverFalls(w: World, a: Ast)
    requires Analysable(a) && !ScopeOf(a).FallsThrough? && Equivalent(w, a, PushDown(a))
    ensures NeverFalls(w, PushDown(a))
  {
    NonFallingNeverFalls(w, a);
    EquivalentNeverFalls(w, a, PushDown(a));
  }

  lemma SwapOne(w: World, nodes: seq<Ast>, i: nat)
    requires i < |nodes| - 1 && nodes[i].If? && nodes[i].els.Null?
    requires NeverFalls(w, nodes[i].thn) && NeverFalls(w, nodes[|nodes| - 1])
    ensures Equivalent(w, Seq(nodes), Seq(nodes[..i] + [If(nodes[i].cond, Null, Seq(nodes[i + 1..])), nodes[i].thn]))
  {
    var rest := nodes[i + 1..];
    LastNeverFalls(w, rest);
    ScopesTradePlaces(w, nodes[..i], nodes[i].cond, nodes[i].thn, rest);
    assert nodes == nodes[..i] + ([If(nodes[i].cond, nodes[i].thn, Null)] + rest);
  }

  lemma LastNeverFalls(w: World, nodes: seq<Ast>)
    requires nodes != [] && NeverFalls(w, nodes[|nodes| - 1])
    ensures NeverFalls(w, Seq(nodes))
  {
    var init, last := nodes[..|nodes| - 1], nodes[|nodes| - 1];
    assert nodes == init + [last];
    forall fuel: nat, h: History ensures !Exec(w, fuel, Seq(nodes), h).out.Fell? {
      ExecSeqAppend(w, fuel, init, [last], h);
      var r := ExecSeq(w, fuel, init, h);
      assert !Exec(w, fuel, last, r.h).out.Fell?;
      assert ExecSeq(w, fuel, [last], r.h) == Exec(w, fuel, last, r.h);
    }
  }

  lemma ScopesTradePlaces(w: World, pre: seq<Ast>, cond: Condition, thn: Ast, rest: seq<Ast>)
    requires NeverFalls(w, thn) && NeverFalls(w, Seq(rest))
    ensures Equivalent(w, Seq(pre + ([If(cond, thn, Null)] + rest)), Seq(pre + [If(cond, Null, Seq(rest)), thn]))
  {
    var was, now := [If(cond, thn, Null)] + rest, [If(cond, Null, Seq(rest)), thn];
    forall fuel: nat, h: History
      ensures Exec(w, fuel, Seq(pre + was), h) == Exec(w, fuel, Seq(pre + now), h)
    {
      ExecSeqAppend(w, fuel, pre, was, h);
      ExecSeqAppend(w, fuel, pre, now, h);
      TailsTradePlaces(w, fuel, cond, thn, rest, ExecSeq(w, fuel, pre, h).h);
    }
  }

  lemma TailsTradePlaces(w: World, fuel: nat, cond: Condition, thn: Ast, rest: seq<Ast>, h: History)
    requires NeverFalls(w, thn) && NeverFalls(w, Seq(rest))
    ensures ExecSeq(w, fuel, [If(cond, thn, Null)] + rest, h)
         == ExecSeq(w, fuel, [If(cond, Null, Seq(rest)), thn], h)
  {
    var was := [If(cond, thn, Null)] + rest;
    var h1 := RunCondition(cond, h);
    var body := Seq(rest);
    assert was[0] == If(cond, thn, Null) && was[1..] == rest;
    PairRuns(w, fuel, If(cond, Null, body), thn, h);
    var r := Exec(w, fuel, body, h1);
    assert !Exec(w, fuel, thn, h1).out.Fell? && !r.out.Fell?;
    assert r == ExecSeq(w, fuel, rest, h1);
    if Test(w, cond.expr, h1) {
      assert Exec(w, fuel, was[0], h) == Exec(w, fuel, thn, h1);
      assert Exec(w, fuel, If(cond, Null, body), h) == Res(Fell, h1);
    } else {
      assert Exec(w, fuel, was[0], h) == Res(Fell, h1);
      assert Exec(w, fuel, If(cond, Null, body), h) == r;
    }
  }
}

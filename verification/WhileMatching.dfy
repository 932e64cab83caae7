/** Turning `while (true) { if (c) ... else break; ... }` into `while (c)`. The
    statements that compute the condition are then printed once before the loop
    and again in front of every continue of that loop. */
module WhileMatching {
  import opened Ghast
  import opened Canonicalize
  import opened FallThrough

  // ----- The pass -----

  /** Attaches the computation of the loop condition to the continues of the
      current loop; nested loops have their own. */
  function Attach(a: Ast, c: Condition): Ast {
    match a
    case Seq(nodes) => Seq(AttachSeq(nodes, c))
    case If(cond, thn, els) => If(cond, Attach(thn, c), Attach(els, c))
    case Switch(on, cases, v, d) => Switch(on, AttachCases(cases, c), v, d)
    case Continue(_, implicit) => Continue(Computes(c), implicit)
    case _ => a
  }

  function AttachSeq(nodes: seq<Ast>, c: Condition): (r: seq<Ast>)
    ensures |r| == |nodes|
    ensures forall i :: 0 <= i < |r| ==> r[i] == Attach(nodes[i], c)
  {
    if nodes == [] then [] else [Attach(nodes[0], c)] + AttachSeq(nodes[1..], c)
  }

  function AttachCases(cases: seq<Case>, c: Condition): (r: seq<Case>)
    ensures |r| == |cases|
    ensures forall i :: 0 <= i < |r| ==> r[i] == Case(cases[i].labels, Attach(cases[i].body, c))
  {
    if cases == [] then [] else [Case(cases[0].labels, Attach(cases[0].body, c))] + AttachCases(cases[1..], c)
  }

  function FirstOf(body: Ast): Ast {
    if body.Seq? && body.nodes != [] then body.nodes[0] else body
  }

  /** The body starts with an `if` that breaks out of the loop on one side. */
  predicate StartsWithTest(body: Ast) {
    var first := FirstOf(body);
    first.If? && (first.thn.Break? || first.els.Break?)
  }

  /** The branch of that `if` that stays in the loop, and the condition for it. */
  function Staying(body: Ast): Ast
    requires StartsWithTest(body)
  {
    if FirstOf(body).els.Break? then FirstOf(body).thn else FirstOf(body).els
  }

  function StayCondition(body: Ast): Condition
    requires StartsWithTest(body)
  {
    if FirstOf(body).els.Break? then FirstOf(body).cond else Negated(FirstOf(body).cond)
  }

  /** The body without its leading test. */
  function Untested(body: Ast): Ast
    requires StartsWithTest(body)
  {
    var stay := Staying(body);
    if body.Seq? then Seq((if stay.Null? then [] else [stay]) + body.nodes[1..]) else stay
  }

  function MatchWhile(a: Ast): Ast {
    match a
    case Seq(nodes) => Seq(MatchWhileSeq(nodes))
    case If(cond, thn, els) => If(cond, MatchWhile(thn), MatchWhile(els))
    case Switch(on, cases, v, d) => Switch(on, MatchWhileCases(cases), v, d)
    case Scs(kind, body) =>
      var inner := MatchWhile(body);
      if !kind.DoWhile? && StartsWithTest(inner) then
        var c := StayCondition(inner);
        Scs(While(c), Attach(Untested(inner), c))
      else Scs(kind, inner)
    case _ => a
  }

  function MatchWhileSeq(nodes: seq<Ast>): (r: seq<Ast>)
    ensures |r| == |nodes|
    ensures forall i :: 0 <= i < |r| ==> r[i] == MatchWhile(nodes[i])
  {
    if nodes == [] then [] else [MatchWhile(nodes[0])] + MatchWhileSeq(nodes[1..])
  }

  function MatchWhileCases(cases: seq<Case>): (r: seq<Case>)
    ensures |r| == |cases|
    ensures forall i :: 0 <= i < |r| ==> r[i] == Case(cases[i].labels, MatchWhile(cases[i].body))
  {
    if cases == [] then [] else [Case(cases[0].labels, MatchWhile(cases[0].body))] + MatchWhileCases(cases[1..])
  }

  /** What the pass relies on: no loop has been matched yet, no loop body is an empty
      sequence, and a test that is the whole body of its loop leaves a branch in it. */
  predicate Unmatched(a: Ast) {
    match a
    case Seq(nodes) => forall i :: 0 <= i < |nodes| ==> Unmatched(nodes[i])
    case If(_, thn, els) => Unmatched(thn) && Unmatched(els)
    case Switch(_, cases, _, _) => forall i :: 0 <= i < |cases| ==> Unmatched(cases[i].body)
    case Scs(kind, body) =>
      && !kind.While? && Unmatched(body)
      && (kind.WhileTrue? ==> body != Seq([]) && (body.If? && StartsWithTest(body) ==> !Staying(body).Null?))
    case _ => true
  }

  /** A matched loop has a body. */
  lemma {:induction false} MatchedLoopHasBody(body: Ast)
    requires Unmatched(Scs(WhileTrue, body)) && StartsWithTest(MatchWhile(body))
    ensures !Untested(MatchWhile(body)).Null?
  {
  }

  // ----- Histories only grow, and more fuel only continues a run -----

  lemma {:induction false} BlocksGrow(bs: seq<Block>, h: History)
    ensures h <= RunBlocks(bs, h)
  {
    if bs != [] { BlocksGrow(bs[1..], RunBlock(bs[0], h)); }
  }

  lemma ConditionGrows(c: Condition, h: History)
    ensures h <= RunCondition(c, h)
  {
    BlocksGrow(Blocks(c.expr), h);
  }

  lemma {:induction false} Grows(w: World, fuel: nat, a: Ast, h: History)
    ensures h <= Exec(w, fuel, a, h).h
    decreases fuel, a, 0
  {
    match a
    case If(cond, thn, els) =>
      ConditionGrows(cond, h);
      Grows(w, fuel, thn, RunCondition(cond, h));
      Grows(w, fuel, els, RunCondition(cond, h));
    case Scs(kind, body) =>
      if kind.While? { ConditionGrows(kind.related, h); }
      LoopGrows(w, fuel, kind, body, if kind.While? then RunCondition(kind.related, h) else h);
    case Seq(nodes) => SeqGrows(w, fuel, nodes, h);
    case Switch(on, cases, _, _) =>
      var h1 := RunScrutinee(on, h);
      var k := SelectCase(cases, ScrutineeValue(w, on, h1));
      if k < |cases| { Grows(w, fuel, cases[k].body, h1); }
    case Continue(computation, _) => if computation.Computes? { ConditionGrows(computation.cond, h); }
    case _ =>
  }

  lemma {:induction false} SeqGrows(w: World, fuel: nat, nodes: seq<Ast>, h: History)
    ensures h <= ExecSeq(w, fuel, nodes, h).h
    decreases fuel, nodes, 0
  {
    if nodes != [] {
      Grows(w, fuel, nodes[0], h);
      SeqGrows(w, fuel, nodes[1..], Exec(w, fuel, nodes[0], h).h);
    }
  }

  lemma {:induction false} LoopGrows(w: World, fuel: nat, kind: LoopKind, body: Ast, h: History)
    ensures h <= Loop(w, fuel, kind, body, h).h
    decreases fuel, body, 1
  {
    if fuel > 0 {
      var r := Exec(w, fuel - 1, body, h);
      Grows(w, fuel - 1, body, h);
      StepGrows(w, kind, r);
      var step := AfterBody(w, kind, r);
      if step.Again? { LoopGrows(w, fuel - 1, kind, body, step.h); }
    }
  }

  lemma StepGrows(w: World, kind: LoopKind, r: Res)
    ensures var step := AfterBody(w, kind, r); r.h <= if step.Again? then step.h else step.res.h
  {
    if kind.DoWhile? { ConditionGrows(kind.related, r.h); }
  }

  /** With more fuel a finished run stays as it is, an unfinished one goes on. */
  predicate Extends(r: Res, more: Res) {
    if r.out.OutOfFuel? then r.h <= more.h else more == r
  }

  lemma {:induction false} Monotone(w: World, fuel: nat, a: Ast, h: History)
    ensures Extends(Exec(w, fuel, a, h), Exec(w, fuel + 1, a, h))
    decreases fuel, a, 0
  {
    match a
    case If(cond, thn, els) =>
      Monotone(w, fuel, thn, RunCondition(cond, h));
      Monotone(w, fuel, els, RunCondition(cond, h));
    case Scs(kind, body) =>
      LoopMonotone(w, fuel, kind, body, if kind.While? then RunCondition(kind.related, h) else h);
    case Seq(nodes) => SeqMonotone(w, fuel, nodes, h);
    case Switch(on, cases, _, _) =>
      var h1 := RunScrutinee(on, h);
      var k := SelectCase(cases, ScrutineeValue(w, on, h1));
      if k < |cases| { Monotone(w, fuel, cases[k].body, h1); }
    case _ =>
  }

  lemma {:induction false} SeqMonotone(w: World, fuel: nat, nodes: seq<Ast>, h: History)
    ensures Extends(ExecSeq(w, fuel, nodes, h), ExecSeq(w, fuel + 1, nodes, h))
    decreases fuel, nodes, 0
  {
    if nodes != [] {
      var r, more := Exec(w, fuel, nodes[0], h), Exec(w, fuel + 1, nodes[0], h);
      Monotone(w, fuel, nodes[0], h);
      if r.out.Fell? {
        SeqMonotone(w, fuel, nodes[1..], r.h);
      } else if r.out.OutOfFuel? {
        SeqGrows(w, fuel + 1, nodes[1..], more.h);
      }
    }
  }

  lemma {:induction false} LoopMonotone(w: World, fuel: nat, kind: LoopKind, body: Ast, h: History)
    ensures Extends(Loop(w, fuel, kind, body, h), Loop(w, fuel + 1, kind, body, h))
    decreases fuel, body, 1
  {
    if fuel == 0 {
      LoopGrows(w, 1, kind, body, h);
    } else {
      var r, more := Exec(w, fuel - 1, body, h), Exec(w, fuel, body, h);
      Monotone(w, fuel - 1, body, h);
      var step := AfterBody(w, kind, r);
      if r.out.OutOfFuel? {
        LoopGoesOn(w, fuel, kind, body, more);
      } else if step.Again? {
        LoopMonotone(w, fuel - 1, kind, body, step.h);
      }
    }
  }

  /** What a loop does after a body result only adds to the history. */
  lemma LoopGoesOn(w: World, fuel: nat, kind: LoopKind, body: Ast, r: Res)
    ensures var step := AfterBody(w, kind, r);
            r.h <= (if step.Again? then Loop(w, fuel, kind, body, step.h) else step.res).h
  {
    StepGrows(w, kind, r);
    var step := AfterBody(w, kind, r);
    if step.Again? { LoopGrows(w, fuel, kind, body, step.h); }
  }

  // ----- The relation between a tree and its matched form -----

  /** `old` and `new` are runs at the same fuel, `more` is the old tree at one unit
      more: finished runs are equal, and what an unfinished new run has done lies
      between what the old tree has done and what it does next. */
  predicate SameRun(was: Res, now: Res, more: Res) {
    && was.out == now.out
    && if was.out.OutOfFuel? then was.h <= now.h && now.h <= more.h else was == now
  }

  ghost predicate Turned(w: World, a: Ast, b: Ast) {
    forall fuel: nat, h: History :: SameRun(Exec(w, fuel, a, h), Exec(w, fuel, b, h), Exec(w, fuel + 1, a, h))
  }

  lemma TurnedRefl(w: World, a: Ast)
    ensures Turned(w, a, a)
  {
    forall fuel: nat, h: History
      ensures SameRun(Exec(w, fuel, a, h), Exec(w, fuel, a, h), Exec(w, fuel + 1, a, h))
    {
      Monotone(w, fuel, a, h);
    }
  }

  lemma {:induction false} IfTurned(w: World, cond: Condition, t: Ast, t': Ast, e: Ast, e': Ast)
    requires Turned(w, t, t') && Turned(w, e, e')
    ensures Turned(w, If(cond, t, e), If(cond, t', e'))
  {
    forall fuel: nat, h: History
      ensures SameRun(Exec(w, fuel, If(cond, t, e), h), Exec(w, fuel, If(cond, t', e'), h),
                      Exec(w, fuel + 1, If(cond, t, e), h))
    {
      var h1 := RunCondition(cond, h);
      assert SameRun(Exec(w, fuel, t, h1), Exec(w, fuel, t', h1), Exec(w, fuel + 1, t, h1));
      assert SameRun(Exec(w, fuel, e, h1), Exec(w, fuel, e', h1), Exec(w, fuel + 1, e, h1));
    }
  }

  lemma {:induction false} SeqRunTurned(w: World, fuel: nat, s: seq<Ast>, s': seq<Ast>, h: History)
    requires |s| == |s'|
    requires forall i :: 0 <= i < |s| ==> Turned(w, s[i], s'[i])
    ensures SameRun(ExecSeq(w, fuel, s, h), ExecSeq(w, fuel, s', h), ExecSeq(w, fuel + 1, s, h))
    decreases |s|
  {
    if s != [] {
      var r, r', more := Exec(w, fuel, s[0], h), Exec(w, fuel, s'[0], h), Exec(w, fuel + 1, s[0], h);
      assert Turned(w, s[0], s'[0]);
      assert SameRun(r, r', more);
      Monotone(w, fuel, s[0], h);
      if r.out.Fell? {
        SeqRunTurned(w, fuel, s[1..], s'[1..], r.h);
      } else if r.out.OutOfFuel? {
        SeqGrows(w, fuel + 1, s[1..], more.h);
      }
    }
  }

  lemma {:induction false} SwitchTurned(w: World, on: Scrutinee, c: seq<Case>, c': seq<Case>, v: bool, d: bool)
    requires |c| == |c'|
    requires forall i :: 0 <= i < |c| ==> c[i].labels == c'[i].labels && Turned(w, c[i].body, c'[i].body)
    ensures Turned(w, Switch(on, c, v, d), Switch(on, c', v, d))
  {
    forall fuel: nat, h: History
      ensures SameRun(Exec(w, fuel, Switch(on, c, v, d), h), Exec(w, fuel, Switch(on, c', v, d), h),
                      Exec(w, fuel + 1, Switch(on, c, v, d), h))
    {
      var h1 := RunScrutinee(on, h);
      var value := ScrutineeValue(w, on, h1);
      SelectDependsOnLabels(c, c', value);
      var k := SelectCase(c, value);
      if k < |c| {
        assert SameRun(Exec(w, fuel, c[k].body, h1), Exec(w, fuel, c'[k].body, h1), Exec(w, fuel + 1, c[k].body, h1));
      }
    }
  }

  lemma {:induction false} LoopTurned(w: World, fuel: nat, kind: LoopKind, b: Ast, b': Ast, h: History)
    requires Turned(w, b, b')
    ensures SameRun(Loop(w, fuel, kind, b, h), Loop(w, fuel, kind, b', h), Loop(w, fuel + 1, kind, b, h))
    decreases fuel
  {
    if fuel == 0 {
      LoopGrows(w, 1, kind, b, h);
    } else {
      var r := Exec(w, fuel - 1, b, h);
      assert SameRun(r, Exec(w, fuel - 1, b', h), Exec(w, fuel, b, h));
      var step := AfterBody(w, kind, r);
      if r.out.OutOfFuel? {
        LoopRunsOut(w, fuel, kind, b, b', h);
      } else {
        Monotone(w, fuel - 1, b, h);
        if step.Again? { LoopTurned(w, fuel - 1, kind, b, b', step.h); }
      }
    }
  }

  lemma {:induction false} LoopRunsOut(w: World, fuel: nat, kind: LoopKind, b: Ast, b': Ast, h: History)
    requires fuel > 0 && Exec(w, fuel - 1, b, h).out.OutOfFuel?
    requires SameRun(Exec(w, fuel - 1, b, h), Exec(w, fuel - 1, b', h), Exec(w, fuel, b, h))
    ensures SameRun(Loop(w, fuel, kind, b, h), Loop(w, fuel, kind, b', h), Loop(w, fuel + 1, kind, b, h))
  {
    LoopGoesOn(w, fuel, kind, b, Exec(w, fuel, b, h));
  }

  // ----- The turned loop -----

  /** The continues of the current loop, which the pass attaches to, are plain. */
  predicate PlainContinues(a: Ast) {
    match a
    case Seq(nodes) => forall i :: 0 <= i < |nodes| ==> PlainContinues(nodes[i])
    case If(_, thn, els) => PlainContinues(thn) && PlainContinues(els)
    case Switch(_, cases, _, _) => forall i :: 0 <= i < |cases| ==> PlainContinues(cases[i].body)
    case Continue(computation, implicit) => computation.NoComputation? && !implicit
    case _ => true
  }

  function Attached(r: Res, c: Condition): Res {
    if r.out.Continued? then Res(Continued, RunCondition(c, r.h)) else r
  }

  /** Attaching a computation only adds it to the runs that reach a continue. */
  lemma {:induction false} AttachRuns(w: World, fuel: nat, a: Ast, c: Condition, h: History)
    requires PlainContinues(a)
    ensures Exec(w, fuel, Attach(a, c), h) == Attached(Exec(w, fuel, a, h), c)
    decreases a
  {
    match a
    case Seq(nodes) => AttachSeqRuns(w, fuel, nodes, c, h);
    case If(cond, thn, els) =>
      AttachRuns(w, fuel, thn, c, RunCondition(cond, h));
      AttachRuns(w, fuel, els, c, RunCondition(cond, h));
    case Scs(kind, body) =>
      LoopNeverContinues(w, fuel, kind, body, if kind.While? then RunCondition(kind.related, h) else h);
    case Switch(on, cases, _, _) =>
      var h1 := RunScrutinee(on, h);
      var k := SelectCase(cases, ScrutineeValue(w, on, h1));
      if k < |cases| { AttachRuns(w, fuel, cases[k].body, c, h1); }
      AttachSwitchRuns(w, fuel, a, c, h);
    case _ =>
  }

  lemma {:induction false} AttachSwitchRuns(w: World, fuel: nat, a: Ast, c: Condition, h: History)
    requires a.Switch? && PlainContinues(a)
    requires var h1 := RunScrutinee(a.on, h);
             var k := SelectCase(a.cases, ScrutineeValue(w, a.on, h1));
             k < |a.cases| ==>
               Exec(w, fuel, Attach(a.cases[k].body, c), h1) == Attached(Exec(w, fuel, a.cases[k].body, h1), c)
    ensures Exec(w, fuel, Attach(a, c), h) == Attached(Exec(w, fuel, a, h), c)
  {
    SelectDependsOnLabels(a.cases, AttachCases(a.cases, c), ScrutineeValue(w, a.on, RunScrutinee(a.on, h)));
  }

  lemma {:induction false} AttachSeqRuns(w: World, fuel: nat, nodes: seq<Ast>, c: Condition, h: History)
    requires forall i :: 0 <= i < |nodes| ==> PlainContinues(nodes[i])
    ensures ExecSeq(w, fuel, AttachSeq(nodes, c), h) == Attached(ExecSeq(w, fuel, nodes, h), c)
    decreases nodes
  {
    if nodes != [] {
      AttachRuns(w, fuel, nodes[0], c, h);
      AttachSeqRuns(w, fuel, nodes[1..], c, Exec(w, fuel, nodes[0], h).h);
    }
  }

  lemma {:induction false} LoopNeverContinues(w: World, fuel: nat, kind: LoopKind, body: Ast, h: History)
    ensures !Loop(w, fuel, kind, body, h).out.Continued?
    decreases fuel
  {
    if fuel > 0 {
      var step := AfterBody(w, kind, Exec(w, fuel - 1, body, h));
      if step.Again? { LoopNeverContinues(w, fuel - 1, kind, body, step.h); }
    }
  }

  /** The body runs its test first and then either leaves or does the rest. */
  lemma TestedBodyRuns(w: World, fuel: nat, body: Ast, h: History)
    requires StartsWithTest(body) && (body.Seq? ==> body.nodes != [])
    ensures var c := StayCondition(body);
            var h1 := RunCondition(c, h);
            Exec(w, fuel, body, h)
            == if Test(w, c.expr, h1) then Exec(w, fuel, Untested(body), h1) else Res(BrokeLoop, h1)
  {
    var first := FirstOf(body);
    var c := StayCondition(body);
    var stay := Staying(body);
    var h1 := RunCondition(c, h);
    assert RunCondition(first.cond, h) == h1;
    var r := Exec(w, fuel, first, h);
    assert Test(w, Not(first.cond.expr), h1) == !Test(w, first.cond.expr, h1);
    assert Exec(w, fuel, Break(true), h1) == Exec(w, fuel, Break(false), h1) == Res(BrokeLoop, h1);
    assert r == if Test(w, c.expr, h1) then Exec(w, fuel, stay, h1) else Res(BrokeLoop, h1);
    if body.Seq? {
      var rest := body.nodes[1..];
      assert ([stay] + rest)[1..] == rest && [] + rest == rest;
      assert ExecSeq(w, fuel, body.nodes, h) == if r.out.Fell? then ExecSeq(w, fuel, rest, r.h) else r;
    }
  }

  /** Computing the condition prints nothing. */
  predicate Silent(c: Condition) {
    c.weaved || forall i :: 0 <= i < |Blocks(c.expr)| ==> !Blocks(c.expr)[i].effects
  }

  lemma {:induction false} SilentBlocksRun(bs: seq<Block>, h: History)
    requires forall i :: 0 <= i < |bs| ==> !bs[i].effects
    ensures RunBlocks(bs, h) == h
  {
    if bs != [] { SilentBlocksRun(bs[1..], h); }
  }

  lemma SilentConditionRuns(c: Condition, h: History)
    requires Silent(c)
    ensures RunCondition(c, h) == h
  {
    if !c.weaved { SilentBlocksRun(Blocks(c.expr), h); }
  }

  /** When the test may move to the loop head: control must not come back to the
      head without passing a continue, unless there is nothing to recompute. */
  ghost predicate MayMoveTest(w: World, body: Ast)
    requires StartsWithTest(body)
  {
    (body.Seq? ==> body.nodes != []) && (NeverFalls(w, body) || Silent(StayCondition(body)))
  }

  lemma {:induction false} LoopTurnsAtOnce(w: World, body: Ast, untested: Ast, h: History)
    requires StartsWithTest(body) && MayMoveTest(w, body)
    ensures var c := StayCondition(body);
            SameRun(Loop(w, 0, WhileTrue, body, h),
                    Loop(w, 0, While(c), Attach(untested, c), RunCondition(c, h)),
                    Loop(w, 1, WhileTrue, body, h))
  {
    var c := StayCondition(body);
    var h1 := RunCondition(c, h);
    ConditionGrows(c, h);
    Grows(w, 0, Untested(body), h1);
    OldHead(w, 1, body, h);
    if Test(w, c.expr, h1) { AfterGrows(w, 0, WhileTrue, body, Exec(w, 0, Untested(body), h1)); }
  }

  lemma {:induction false} TurnEnds(w: World, fuel: nat, body: Ast, untested: Ast, h: History)
    requires fuel > 0 && StartsWithTest(body) && MayMoveTest(w, body) && PlainContinues(untested)
    requires Turned(w, Untested(body), untested)
    requires Test(w, StayCondition(body).expr, RunCondition(StayCondition(body), h))
    requires var r := Exec(w, fuel - 1, Untested(body), RunCondition(StayCondition(body), h));
             !r.out.Continued? && !r.out.Fell?
    ensures var c := StayCondition(body);
            SameRun(Loop(w, fuel, WhileTrue, body, h),
                    Loop(w, fuel, While(c), Attach(untested, c), RunCondition(c, h)),
                    Loop(w, fuel + 1, WhileTrue, body, h))
  {
    OldHead(w, fuel, body, h);
    OldHead(w, fuel + 1, body, h);
    IterationTurns(w, fuel, body, untested, h);
  }

  lemma {:induction false} TurnGoesOn(w: World, fuel: nat, body: Ast, untested: Ast, h: History, r: Res)
    requires fuel > 0 && StartsWithTest(body) && MayMoveTest(w, body) && PlainContinues(untested)
    requires Turned(w, Untested(body), untested)
    requires Test(w, StayCondition(body).expr, RunCondition(StayCondition(body), h))
    requires r == Exec(w, fuel - 1, Untested(body), RunCondition(StayCondition(body), h))
    requires r.out.Continued? || r.out.Fell?
    requires var c := StayCondition(body);
             SameRun(Loop(w, fuel - 1, WhileTrue, body, r.h),
                     Loop(w, fuel - 1, While(c), Attach(untested, c), RunCondition(c, r.h)),
                     Loop(w, fuel, WhileTrue, body, r.h))
    ensures var c := StayCondition(body);
            SameRun(Loop(w, fuel, WhileTrue, body, h),
                    Loop(w, fuel, While(c), Attach(untested, c), RunCondition(c, h)),
                    Loop(w, fuel + 1, WhileTrue, body, h))
  {
    OldHead(w, fuel, body, h);
    OldHead(w, fuel + 1, body, h);
    IterationTurns(w, fuel, body, untested, h);
    if r.out.Fell? { SilentConditionRuns(StayCondition(body), r.h); }
  }

  /** The turned loop against the original one, iteration by iteration: at its head
      the new loop has already computed the condition. */
  lemma {:induction false} LoopTurns(w: World, fuel: nat, body: Ast, untested: Ast, h: History)
    requires StartsWithTest(body) && MayMoveTest(w, body) && PlainContinues(untested)
    requires Turned(w, Untested(body), untested)
    ensures var c := StayCondition(body);
            SameRun(Loop(w, fuel, WhileTrue, body, h),
                    Loop(w, fuel, While(c), Attach(untested, c), RunCondition(c, h)),
                    Loop(w, fuel + 1, WhileTrue, body, h))
    decreases fuel
  {
    var c := StayCondition(body);
    var h1 := RunCondition(c, h);
    if fuel == 0 {
      LoopTurnsAtOnce(w, body, untested, h);
    } else {
      if Test(w, c.expr, h1) {
        var r := Exec(w, fuel - 1, Untested(body), h1);
        if r.out.Continued? || r.out.Fell? {
          LoopTurns(w, fuel - 1, body, untested, r.h);
          TurnGoesOn(w, fuel, body, untested, h, r);
        } else {
          TurnEnds(w, fuel, body, untested, h);
        }
      } else {
        OldHead(w, fuel, body, h);
        OldHead(w, fuel + 1, body, h);
      }
    }
  }

  function After(w: World, fuel: nat, kind: LoopKind, body: Ast, r: Res): Res {
    match AfterBody(w, kind, r)
    case Again(h) => Loop(w, fuel, kind, body, h)
    case Stop(res) => res
  }

  lemma AfterGrows(w: World, fuel: nat, kind: LoopKind, body: Ast, r: Res)
    ensures r.h <= After(w, fuel, kind, body, r).h
  {
    LoopGoesOn(w, fuel, kind, body, r);
  }

  /** The head of the original loop, in terms of its test. */
  lemma OldHead(w: World, fuel: nat, body: Ast, h: History)
    requires fuel > 0 && StartsWithTest(body) && (body.Seq? ==> body.nodes != [])
    ensures var c := StayCondition(body);
            var h1 := RunCondition(c, h);
            Loop(w, fuel, WhileTrue, body, h)
            == if Test(w, c.expr, h1) then After(w, fuel - 1, WhileTrue, body, Exec(w, fuel - 1, Untested(body), h1))
               else Res(Fell, h1)
  {
    TestedBodyRuns(w, fuel - 1, body, h);
  }

  /** The results of one iteration: old body, new body, old body with more fuel. */
  lemma IterationTurns(w: World, fuel: nat, body: Ast, untested: Ast, h: History)
    requires fuel > 0 && StartsWithTest(body) && MayMoveTest(w, body) && PlainContinues(untested)
    requires Turned(w, Untested(body), untested)
    requires Test(w, StayCondition(body).expr, RunCondition(StayCondition(body), h))
    ensures var c := StayCondition(body);
            var h1 := RunCondition(c, h);
            var r := Exec(w, fuel - 1, Untested(body), h1);
            var now := Exec(w, fuel - 1, Attach(untested, c), h1);
            var more := Exec(w, fuel, Untested(body), h1);
            && (r.out.Fell? ==> Silent(c))
            && now.out == r.out
            && (!r.out.OutOfFuel? ==> more == r && now.h == if r.out.Continued? then RunCondition(c, r.h) else r.h)
            && (r.out.OutOfFuel? ==>
                  r.h <= now.h && now.h <= more.h && more.h <= After(w, fuel, WhileTrue, body, more).h)
  {
    var c := StayCondition(body);
    var h1 := RunCondition(c, h);
    var r := Exec(w, fuel - 1, Untested(body), h1);
    TestedBodyRuns(w, fuel - 1, body, h);
    assert NeverFalls(w, body) ==> !Exec(w, fuel - 1, body, h).out.Fell?;
    AttachRuns(w, fuel - 1, untested, c, h1);
    Monotone(w, fuel - 1, Untested(body), h1);
    assert SameRun(r, Exec(w, fuel - 1, untested, h1), Exec(w, fuel - 1 + 1, Untested(body), h1));
    AfterGrows(w, fuel, WhileTrue, body, Exec(w, fuel, Untested(body), h1));
  }

  // ----- The whole pass -----

  /** What the pass may assume of a tree: no loop has been matched yet, continues
      are plain, and the body of an endless loop that starts with a test never
      completes normally, or else the test has nothing to recompute. */
  predicate Matchable(a: Ast) {
    Analysable(a) && LoopsMatchable(a)
  }

  predicate LoopsMatchable(a: Ast) {
    match a
    case Seq(nodes) => forall i :: 0 <= i < |nodes| ==> LoopsMatchable(nodes[i])
    case If(_, thn, els) => LoopsMatchable(thn) && LoopsMatchable(els)
    case Switch(_, cases, _, _) => forall i :: 0 <= i < |cases| ==> LoopsMatchable(cases[i].body)
    case Scs(kind, body) =>
      && !kind.While?
      && LoopsMatchable(body) && PlainContinues(body)
      && (kind.WhileTrue? && StartsWithTest(body) ==>
            !ScopeOf(body).FallsThrough? || (Silent(StayCondition(body)) && (body.Seq? ==> body.nodes != [])))
    case _ => true
  }

  lemma {:induction false} MatchKeepsContinuesPlain(a: Ast)
    requires PlainContinues(a)
    ensures PlainContinues(MatchWhile(a))
  {
    match a
    case Seq(nodes) => forall i | 0 <= i < |nodes| { MatchKeepsContinuesPlain(nodes[i]); }
    case If(_, thn, els) =>
      MatchKeepsContinuesPlain(thn);
      MatchKeepsContinuesPlain(els);
    case Switch(_, cases, _, _) => forall i | 0 <= i < |cases| { MatchKeepsContinuesPlain(cases[i].body); }
    case _ =>
  }

  lemma MatchKeepsKind(a: Ast)
    ensures var m := MatchWhile(a);
            m.Break? == a.Break? && m.If? == a.If? && m.Seq? == a.Seq? && m.Null? == a.Null?
  {
  }

  /** The leading test survives the treatment of nested loops. */
  lemma MatchKeepsTest(body: Ast)
    ensures StartsWithTest(MatchWhile(body)) == StartsWithTest(body)
    ensures StartsWithTest(body) ==>
              && StayCondition(MatchWhile(body)) == StayCondition(body)
              && Staying(MatchWhile(body)) == MatchWhile(Staying(body))
              && Untested(MatchWhile(body)) == MatchWhile(Untested(body))
  {
    var first := FirstOf(body);
    MatchKeepsKind(body);
    MatchKeepsKind(first);
    assert FirstOf(MatchWhile(body)) == MatchWhile(first);
    if first.If? {
      assert MatchWhile(first) == If(first.cond, MatchWhile(first.thn), MatchWhile(first.els));
      MatchKeepsKind(first.thn);
      MatchKeepsKind(first.els);
    }
    if StartsWithTest(body) && body.Seq? {
      var stay := Staying(body);
      var kept := (if stay.Null? then [] else [stay]) + body.nodes[1..];
      assert MatchWhile(Untested(body)) == Seq(MatchWhileSeq(kept));
      assert MatchWhileSeq(kept) == (if stay.Null? then [] else [MatchWhile(stay)]) + MatchWhileSeq(body.nodes)[1..];
    }
  }

  /** The matched program has the same finished runs as the original, and a run that
      never finishes shows the same events. */
  lemma {:induction false} MatchWhileRefines(w: World, a: Ast)
    requires Matchable(a)
    ensures Turned(w, a, MatchWhile(a))
    decreases a
  {
    match a
    case Seq(nodes) =>
      forall i | 0 <= i < |nodes| ensures Turned(w, nodes[i], MatchWhileSeq(nodes)[i]) {
        MatchWhileRefines(w, nodes[i]);
      }
      SeqMatchedRefines(w, nodes);
    case If(cond, thn, els) =>
      MatchWhileRefines(w, thn);
      MatchWhileRefines(w, els);
      IfTurned(w, cond, thn, MatchWhile(thn), els, MatchWhile(els));
    case Switch(on, cases, v, d) =>
      forall i | 0 <= i < |cases| ensures Turned(w, cases[i].body, MatchWhileCases(cases)[i].body) {
        MatchWhileRefines(w, cases[i].body);
      }
      SwitchTurned(w, on, cases, MatchWhileCases(cases), v, d);
    case Scs(kind, body) =>
      MatchWhileRefines(w, body);
      MatchKeepsTest(body);
      if !kind.DoWhile? && StartsWithTest(body) {
        UntestedRefines(w, body);
        ScsTurns(w, body);
      } else {
        forall fuel: nat, h: History
          ensures SameRun(Exec(w, fuel, a, h), Exec(w, fuel, MatchWhile(a), h), Exec(w, fuel + 1, a, h))
        {
          LoopTurned(w, fuel, kind, body, MatchWhile(body), h);
        }
      }
    case _ => TurnedRefl(w, a);
  }

  lemma SeqMatchedRefines(w: World, nodes: seq<Ast>)
    requires forall i :: 0 <= i < |nodes| ==> Turned(w, nodes[i], MatchWhile(nodes[i]))
    ensures Turned(w, Seq(nodes), MatchWhile(Seq(nodes)))
  {
    forall fuel: nat, h: History
      ensures SameRun(Exec(w, fuel, Seq(nodes), h), Exec(w, fuel, MatchWhile(Seq(nodes)), h),
                      Exec(w, fuel + 1, Seq(nodes), h))
    {
      SeqRunTurned(w, fuel, nodes, MatchWhileSeq(nodes), h);
    }
  }

  lemma UntestedRefines(w: World, body: Ast)
    requires Matchable(body) && StartsWithTest(body)
    ensures Turned(w, Untested(body), MatchWhile(Untested(body)))
    decreases body, 0
  {
    var stay := Staying(body);
    if body.Seq? {
      var kept := (if stay.Null? then [] else [stay]) + body.nodes[1..];
      forall i | 0 <= i < |kept| ensures Turned(w, kept[i], MatchWhile(kept[i])) {
        if i == 0 && !stay.Null? {
          assert Matchable(body.nodes[0]);
          MatchWhileRefines(w, stay);
        } else {
          var j := if stay.Null? then i + 1 else i;
          assert kept[i] == body.nodes[j] && Matchable(body.nodes[j]);
          MatchWhileRefines(w, body.nodes[j]);
        }
      }
      SeqMatchedRefines(w, kept);
    } else {
      MatchWhileRefines(w, stay);
    }
  }

  lemma ScsTurns(w: World, body: Ast)
    requires StartsWithTest(body) && Analysable(body) && PlainContinues(body)
    requires !ScopeOf(body).FallsThrough? || (Silent(StayCondition(body)) && (body.Seq? ==> body.nodes != []))
    requires Turned(w, Untested(body), MatchWhile(Untested(body)))
    ensures Turned(w, Scs(WhileTrue, body), MatchWhile(Scs(WhileTrue, body)))
  {
    var c := StayCondition(body);
    var untested := MatchWhile(Untested(body));
    MatchKeepsTest(body);
    if !ScopeOf(body).FallsThrough? { NonFallingNeverFalls(w, body); }
    assert PlainContinues(Untested(body)) by {
      if body.Seq? { assert PlainContinues(body.nodes[0]); }
    }
    MatchKeepsContinuesPlain(Untested(body));
    assert MatchWhile(Scs(WhileTrue, body)) == Scs(While(c), Attach(untested, c));
    forall fuel: nat, h: History
      ensures SameRun(Exec(w, fuel, Scs(WhileTrue, body), h), Exec(w, fuel, Scs(While(c), Attach(untested, c)), h),
                      Exec(w, fuel + 1, Scs(WhileTrue, body), h))
    {
      LoopTurns(w, fuel, body, untested, h);
    }
  }

  // ----- Which continues carry a computation -----

  /** The continues of the current loop carry exactly the computation `own`. */
  predicate ContinuesCarry(a: Ast, own: Computation) {
    match a
    case Seq(nodes) => forall i :: 0 <= i < |nodes| ==> ContinuesCarry(nodes[i], own)
    case If(_, thn, els) => ContinuesCarry(thn, own) && ContinuesCarry(els, own)
    case Switch(_, cases, _, _) => forall i :: 0 <= i < |cases| ==> ContinuesCarry(cases[i].body, own)
    case Scs(kind, body) => ContinuesCarry(body, if kind.While? then Computes(kind.related) else NoComputation)
    case Continue(computation, _) => computation == own
    case _ => true
  }

  lemma {:induction false} AttachCarries(a: Ast, c: Condition)
    requires ContinuesCarry(a, NoComputation)
    ensures ContinuesCarry(Attach(a, c), Computes(c))
  {
    match a
    case Seq(nodes) => forall i | 0 <= i < |nodes| { AttachCarries(nodes[i], c); }
    case If(_, thn, els) =>
      AttachCarries(thn, c);
      AttachCarries(els, c);
    case Switch(_, cases, _, _) => forall i | 0 <= i < |cases| { AttachCarries(cases[i].body, c); }
    case _ =>
  }

  /** After the pass every continue that binds to a matched loop carries the
      condition of that loop, and no other continue carries one. */
  lemma {:induction false} MatchWhileAttachesExactly(a: Ast)
    requires ContinuesCarry(a, NoComputation) && Unmatched(a)
    ensures ContinuesCarry(MatchWhile(a), NoComputation)
    decreases a
  {
    match a
    case Seq(nodes) => forall i | 0 <= i < |nodes| { MatchWhileAttachesExactly(nodes[i]); }
    case If(_, thn, els) =>
      MatchWhileAttachesExactly(thn);
      MatchWhileAttachesExactly(els);
    case Switch(_, cases, _, _) => forall i | 0 <= i < |cases| { MatchWhileAttachesExactly(cases[i].body); }
    case Scs(kind, body) =>
      MatchWhileAttachesExactly(body);
      var inner := MatchWhile(body);
      if !kind.DoWhile? && StartsWithTest(inner) {
        assert ContinuesCarry(Untested(inner), NoComputation) by {
          if inner.Seq? { assert ContinuesCarry(inner.nodes[0], NoComputation); }
        }
        AttachCarries(Untested(inner), StayCondition(inner));
      }
    case _ =>
  }

  // ----- Which loops are matched -----

  /** The first statement of a loop body is an `if` one of whose branches is a break. */
  predicate BreaksFirst(body: Ast) {
    || (body.If? && (body.thn.Break? || body.els.Break?))
    || (body.Seq? && body.nodes != [] && body.nodes[0].If?
        && (body.nodes[0].thn.Break? || body.nodes[0].els.Break?))
  }

  /** No endless loop is left that starts with such a test. */
  predicate AllMatched(a: Ast) {
    match a
    case Seq(nodes) => forall i :: 0 <= i < |nodes| ==> AllMatched(nodes[i])
    case If(_, thn, els) => AllMatched(thn) && AllMatched(els)
    case Switch(_, cases, _, _) => forall i :: 0 <= i < |cases| ==> AllMatched(cases[i].body)
    case Scs(kind, body) => AllMatched(body) && !(kind.WhileTrue? && BreaksFirst(body))
    case _ => true
  }

  /** A loop becomes a `while` loop exactly when it is endless and starts with such a test. */
  lemma {:induction false} MatchedIff(kind: LoopKind, body: Ast)
    requires !kind.While?
    ensures MatchWhile(Scs(kind, body)).kind.While? <==> kind.WhileTrue? && BreaksFirst(body)
    ensures !MatchWhile(Scs(kind, body)).kind.While? ==> MatchWhile(Scs(kind, body)).kind == kind
  {
    MatchKeepsTest(body);
  }

  lemma {:induction false} AttachKeepsLoops(a: Ast, c: Condition)
    requires AllMatched(a)
    ensures AllMatched(Attach(a, c))
  {
    match a
    case Seq(nodes) => forall i | 0 <= i < |nodes| { AttachKeepsLoops(nodes[i], c); }
    case If(_, thn, els) =>
      AttachKeepsLoops(thn, c);
      AttachKeepsLoops(els, c);
    case Switch(_, cases, _, _) => forall i | 0 <= i < |cases| { AttachKeepsLoops(cases[i].body, c); }
    case _ =>
  }

  /** One pass matches every loop that can be matched, however deep it is nested. */
  lemma {:induction false} MatchWhileIsComplete(a: Ast)
    ensures AllMatched(MatchWhile(a))
  {
    match a
    case Seq(nodes) => forall i | 0 <= i < |nodes| { MatchWhileIsComplete(nodes[i]); }
    case If(_, thn, els) =>
      MatchWhileIsComplete(thn);
      MatchWhileIsComplete(els);
    case Switch(_, cases, _, _) => forall i | 0 <= i < |cases| { MatchWhileIsComplete(cases[i].body); }
    case Scs(kind, body) =>
      MatchWhileIsComplete(body);
      var inner := MatchWhile(body);
      if !kind.DoWhile? && StartsWithTest(inner) {
        assert inner.Seq? ==> inner.nodes == [] || AllMatched(inner.nodes[0]);
        AttachKeepsLoops(Untested(inner), StayCondition(inner));
      }
    case _ =>
  }

  lemma {:induction false} ProperPrefix(a: History, b: History, c: History)
    requires a < b && b <= c
    ensures a < c
  {
  }

  lemma {:induction false} LoudConditionRuns(c: Condition, h: History)
    requires !Silent(c)
    ensures h < RunCondition(c, h)
  {
    LoudBlocksRun(Blocks(c.expr), h);
  }

  lemma {:induction false} LoudBlocksRun(bs: seq<Block>, h: History)
    requires exists i :: 0 <= i < |bs| && bs[i].effects
    ensures h < RunBlocks(bs, h)
  {
    var h1 := RunBlock(bs[0], h);
    if bs[0].effects {
      BlocksGrow(bs[1..], h1);
    } else {
      var i :| 0 <= i < |bs| && bs[i].effects;
      assert bs[1..][i - 1].effects;
      LoudBlocksRun(bs[1..], h1);
    }
  }

  /** Whenever the rest of the body completes normally, at `r`, and the test fails there as
      it is, the matched loop ends at `r`, while the original loop computes its condition
      once more; the runs differ unless the condition is silent. */
  lemma {:induction false} TestIsNotRecomputed(w: World, fuel: nat, body: Ast, h: History, r: History)
    requires fuel >= 2 && StartsWithTest(body) && (body.Seq? ==> body.nodes != []) && PlainContinues(Untested(body))
    requires var c := StayCondition(body);
             && Test(w, c.expr, RunCondition(c, h)) && !Test(w, c.expr, r)
             && Exec(w, fuel - 1, Untested(body), RunCondition(c, h)) == Res(Fell, r)
    ensures var c := StayCondition(body);
            var was := Exec(w, fuel, Scs(WhileTrue, body), h);
            var now := Exec(w, fuel, Scs(While(c), Attach(Untested(body), c)), h);
            && now == Res(Fell, r) && RunCondition(c, r) <= was.h
            && (!Silent(c) ==> now.h < was.h)
  {
    var c := StayCondition(body);
    var h1 := RunCondition(c, h);
    var attached := Attach(Untested(body), c);
    AttachRuns(w, fuel - 1, Untested(body), c, h1);
    assert Exec(w, fuel - 1, attached, h1) == Res(Fell, r);
    assert Loop(w, fuel - 1, While(c), attached, r) == Res(Fell, r);
    assert Loop(w, fuel, While(c), attached, h1) == Res(Fell, r);
    OldHead(w, fuel, body, h);
    OldHead(w, fuel - 1, body, r);
    var h2 := RunCondition(c, r);
    if Test(w, c.expr, h2) {
      var next := Exec(w, fuel - 2, Untested(body), h2);
      Grows(w, fuel - 2, Untested(body), h2);
      AfterGrows(w, fuel - 2, WhileTrue, body, next);
    }
    if !Silent(c) {
      LoudConditionRuns(c, r);
      ProperPrefix(r, h2, Exec(w, fuel, Scs(WhileTrue, body), h).h);
    }
  }

  /** Outside that condition the pass goes wrong: here the body completes normally,
      and the matched loop tests again without recomputing its condition. */
  lemma FallingBodyGoesWrong()
    ensures var c := Condition(Atomic(Block(0, true, 1)), false, Block(0, true, 1));
            var step := Code(Block(1, true, 1), Jumps, false);
            var loop := Scs(WhileTrue, If(c, step, Break(false)));
            var w := World((_, h) => |h| <= 1, (_, _) => 0);
            && Exec(w, 2, loop, []) == Res(Fell, [Ran(0), Ran(1), Ran(0)])
            && Exec(w, 2, MatchWhile(loop), []) == Res(Fell, [Ran(0), Ran(1)])
  {
    var b := Block(0, true, 1);
    var c := Condition(Atomic(b), false, b);
    var step := Code(Block(1, true, 1), Jumps, false);
    var body := If(c, step, Break(false));
    var w := World((_, h) => |h| <= 1, (_, _) => 0);
    var h0, h1: History, h2: History := [], [Ran(0)], [Ran(0), Ran(1)];
    forall h: History ensures RunCondition(c, h) == h + [Ran(0)] {
      assert Blocks(c.expr) == [b];
      assert RunBlocks([b][1..], RunBlock(b, h)) == h + [Ran(0)];
    }
    assert RunCondition(c, h0) == h1 && Test(w, c.expr, h1);
    assert Exec(w, 1, step, h1) == Res(Fell, h2);
    assert Exec(w, 1, body, h0) == Res(Fell, h2);
    assert !Test(w, c.expr, h2) && !Test(w, c.expr, h2 + [Ran(0)]);
    assert Exec(w, 0, body, h2) == Res(BrokeLoop, h2 + [Ran(0)]);
    assert Loop(w, 1, WhileTrue, body, h2) == Res(Fell, h2 + [Ran(0)]);
    assert h2 + [Ran(0)] == [Ran(0), Ran(1), Ran(0)];
    assert MatchWhile(Scs(WhileTrue, body)) == Scs(While(c), step);
    assert Loop(w, 1, While(c), step, h2) == Res(Fell, h2);
  }
}

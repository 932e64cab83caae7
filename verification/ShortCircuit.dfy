/** Merging nested `if` nodes into one condition. The printer evaluates both
    operands of the merged condition before testing it, which is harmless only
    because the inner condition has no side effects. */
module ShortCircuit {
  import opened Ghast
  import opened Canonicalize

  /** The conditions that exist when the pass runs: comparisons are introduced later. */
  predicate AtomicCondition(e: Expr) {
    match e
    case Atomic(_) => true
    case Not(n) => AtomicCondition(n)
    case And(l, r) => AtomicCondition(l) && AtomicCondition(r)
    case Or(l, r) => AtomicCondition(l) && AtomicCondition(r)
    case _ => false
  }

  predicate HasSideEffects(e: Expr)
    requires AtomicCondition(e)
  {
    match e
    case Atomic(bb) => bb.effects
    case Not(n) => HasSideEffects(n)
    case And(l, r) => HasSideEffects(l) || HasSideEffects(r)
    case Or(l, r) => HasSideEffects(l) || HasSideEffects(r)
  }

  /** No block whose statements are printed in front of the test has side effects. */
  predicate Pure(e: Expr) {
    forall b :: b in Blocks(e) ==> !b.effects
  }

  lemma {:induction false} SideEffectsIff(e: Expr)
    requires AtomicCondition(e)
    ensures HasSideEffects(e) <==> !Pure(e)
  {
    match e
    case Atomic(bb) => assert bb in Blocks(e);
    case Not(n) => SideEffectsIff(n);
    case And(l, r) =>
      SideEffectsIff(l);
      SideEffectsIff(r);
      assert Pure(e) <==> Pure(l) && Pure(r);
    case Or(l, r) =>
      SideEffectsIff(l);
      SideEffectsIff(r);
      assert Pure(e) <==> Pure(l) && Pure(r);
  }

  lemma {:induction false} RunBlocksAppend(a: seq<Block>, b: seq<Block>, h: History)
    ensures RunBlocks(a + b, h) == RunBlocks(b, RunBlocks(a, h))
    decreases |a|
  {
    if a == [] {
      assert a + b == b;
    } else {
      assert (a + b)[0] == a[0] && (a + b)[1..] == a[1..] + b;
      RunBlocksAppend(a[1..], b, RunBlock(a[0], h));
    }
  }

  /** Computing a condition without side effects leaves no trace. */
  lemma {:induction false} PureConditionRuns(e: Expr, h: History)
    requires AtomicCondition(e) && !HasSideEffects(e)
    ensures RunBlocks(Blocks(e), h) == h
  {
    match e
    case Atomic(bb) => assert RunBlocks([bb], h) == RunBlocks([bb][1..], RunBlock(bb, h));
    case Not(n) => PureConditionRuns(n, h);
    case And(l, r) =>
      PureConditionRuns(l, h);
      PureConditionRuns(r, h);
      RunBlocksAppend(Blocks(l), Blocks(r), h);
    case Or(l, r) =>
      PureConditionRuns(l, h);
      PureConditionRuns(r, h);
      RunBlocksAppend(Blocks(l), Blocks(r), h);
  }

  /** `outer` joined with the pure condition `inner`, taken positively or negated. */
  function Joined(outer: Condition, inner: Condition, negated: bool): Condition {
    Condition(And(outer.expr, if negated then Not(inner.expr) else inner.expr), outer.weaved, outer.origin)
  }

  lemma JoinedConditionRuns(outer: Condition, inner: Condition, negated: bool, h: History)
    requires AtomicCondition(inner.expr) && !HasSideEffects(inner.expr)
    ensures RunCondition(Joined(outer, inner, negated), h) == RunCondition(outer, h)
    ensures RunCondition(inner, h) == h
  {
    PureConditionRuns(inner.expr, h);
    var operand := if negated then Not(inner.expr) else inner.expr;
    assert Blocks(operand) == Blocks(inner.expr);
    assert Blocks(And(outer.expr, operand)) == Blocks(outer.expr) + Blocks(operand);
    if !outer.weaved {
      RunBlocksAppend(Blocks(outer.expr), Blocks(inner.expr), h);
      PureConditionRuns(inner.expr, RunBlocks(Blocks(outer.expr), h));
    }
  }

  /** `if A { if B { X } else { Y } } else { Y }` is `if A && B { X } else { Y }`. */
  lemma SharedElse(w: World, outer: Condition, inner: Condition, x: Ast, y: Ast)
    requires AtomicCondition(inner.expr) && !HasSideEffects(inner.expr)
    ensures Equivalent(w, If(outer, If(inner, x, y), y), If(Joined(outer, inner, false), x, y))
  {
    forall fuel: nat, h: History
      ensures Exec(w, fuel, If(outer, If(inner, x, y), y), h) == Exec(w, fuel, If(Joined(outer, inner, false), x, y), h)
    {
      JoinedConditionRuns(outer, inner, false, h);
      JoinedConditionRuns(outer, inner, false, RunCondition(outer, h));
    }
  }

  /** `if A { if B { Y } else { X } } else { Y }` is `if A && !B { X } else { Y }`. */
  lemma SharedThen(w: World, outer: Condition, inner: Condition, x: Ast, y: Ast)
    requires AtomicCondition(inner.expr) && !HasSideEffects(inner.expr)
    ensures Equivalent(w, If(outer, If(inner, y, x), y), If(Joined(outer, inner, true), x, y))
  {
    forall fuel: nat, h: History
      ensures Exec(w, fuel, If(outer, If(inner, y, x), y), h) == Exec(w, fuel, If(Joined(outer, inner, true), x, y), h)
    {
      var h1 := RunCondition(outer, h);
      var joined := Joined(outer, inner, true);
      JoinedConditionRuns(outer, inner, true, h);
      JoinedConditionRuns(outer, inner, true, h1);
      var p, q := Test(w, outer.expr, h1), Test(w, inner.expr, h1);
      assert Test(w, joined.expr, h1) == (p && !q);
      assert Exec(w, fuel, If(inner, y, x), h1) == Exec(w, fuel, if q then y else x, h1);
    }
  }

  /** One application of a rule for an `if` nested in the `then` branch; the two
      rules are tried in this order. */
  function NestedInThen(a: Ast): Ast
    requires a.If? && a.thn.If? && AtomicCondition(a.thn.cond.expr)
  {
    var inner := a.thn;
    if a.els.Null? || HasSideEffects(inner.cond.expr) then a
    else if !inner.thn.Null? && a.els == inner.thn then If(Joined(a.cond, inner.cond, true), inner.els, inner.thn)
    else if !inner.els.Null? && a.els == inner.els then If(Joined(a.cond, inner.cond, false), inner.thn, inner.els)
    else a
  }

  lemma NestedInThenPreserves(w: World, a: Ast)
    requires a.If? && a.thn.If? && AtomicCondition(a.thn.cond.expr)
    ensures Equivalent(w, a, NestedInThen(a))
  {
    if !HasSideEffects(a.thn.cond.expr) {
      SharedElse(w, a.cond, a.thn.cond, a.thn.thn, a.thn.els);
      SharedThen(w, a.cond, a.thn.cond, a.thn.els, a.thn.thn);
    }
  }

  /** The guards of the two rules: there is a block to share, the inner condition has no
      side effects, and one of the inner branches is that block. */
  predicate ThenRuleFires(a: Ast)
    requires a.If? && a.thn.If?
  {
    !a.els.Null? && Pure(a.thn.cond.expr) && (a.els == a.thn.thn || a.els == a.thn.els)
  }

  /** The tree stays as it is exactly when no guard holds. */
  lemma {:induction false} NestedInThenUnchangedIff(a: Ast)
    requires a.If? && a.thn.If? && AtomicCondition(a.thn.cond.expr)
    ensures NestedInThen(a) == a <==> !ThenRuleFires(a)
  {
    SideEffectsIff(a.thn.cond.expr);
    if ThenRuleFires(a) {
      var before, after := a.cond.expr, NestedInThen(a).cond.expr;
      assert after.l == before;
      assert after.l < after;
    }
  }

  /** The rules for an `if` nested in the `else` branch negate both operands but
      install the branches as if they had not. */
  function NestedInElse(a: Ast): Ast
    requires a.If? && a.els.If? && AtomicCondition(a.els.cond.expr)
  {
    var inner := a.els;
    var notA := Condition(Not(a.cond.expr), a.cond.weaved, a.cond.origin);
    if a.thn.Null? || HasSideEffects(inner.cond.expr) then a
    else if !inner.thn.Null? && a.thn == inner.thn then If(Joined(notA, inner.cond, true), inner.thn, inner.els)
    else if !inner.els.Null? && a.thn == inner.els then If(Joined(notA, inner.cond, false), inner.els, inner.thn)
    else a
  }

  /** Whenever one of those rules fires, the new node is the original one with the
      two blocks exchanged everywhere. */
  lemma NestedInElseSwapsBranches(w: World, outer: Condition, inner: Condition, x: Ast, y: Ast)
    requires AtomicCondition(inner.expr) && !HasSideEffects(inner.expr)
    requires !x.Null? && x != y
    ensures Equivalent(w, NestedInElse(If(outer, x, If(inner, x, y))), If(outer, y, If(inner, y, x)))
    ensures Equivalent(w, NestedInElse(If(outer, x, If(inner, y, x))), If(outer, y, If(inner, x, y)))
  {
    var notOuter := Negated(outer);
    forall fuel: nat, h: History
      ensures Exec(w, fuel, If(Joined(notOuter, inner, true), x, y), h)
           == Exec(w, fuel, If(outer, y, If(inner, y, x)), h)
      ensures Exec(w, fuel, If(Joined(notOuter, inner, false), x, y), h)
           == Exec(w, fuel, If(outer, y, If(inner, x, y)), h)
    {
      assert RunCondition(notOuter, h) == RunCondition(outer, h);
      var h1 := RunCondition(outer, h);
      JoinedConditionRuns(notOuter, inner, true, h);
      JoinedConditionRuns(notOuter, inner, false, h);
      JoinedConditionRuns(notOuter, inner, true, h1);
      var a, b := Test(w, outer.expr, h1), Test(w, inner.expr, h1);
      assert Test(w, notOuter.expr, h1) == !a;
      assert Test(w, Joined(notOuter, inner, true).expr, h1) == (!a && !b);
      assert Test(w, Joined(notOuter, inner, false).expr, h1) == (!a && b);
    }
  }

  /** The guards of the two rules: there is a block to share, the inner condition has no
      side effects, and one of the inner branches is that block. */
  predicate ElseRuleFires(a: Ast)
    requires a.If? && a.els.If?
  {
    !a.thn.Null? && Pure(a.els.cond.expr) && (a.thn == a.els.thn || a.thn == a.els.els)
  }

  /** The inner branch that is not shared. */
  function Unshared(a: Ast): Ast
    requires a.If? && a.els.If?
  {
    if a.thn == a.els.thn then a.els.els else a.els.thn
  }

  /** The tree stays as it is exactly when no guard holds. */
  lemma {:induction false} NestedInElseUnchangedIff(a: Ast)
    requires a.If? && a.els.If? && AtomicCondition(a.els.cond.expr)
    ensures NestedInElse(a) == a <==> !ElseRuleFires(a)
  {
    SideEffectsIff(a.els.cond.expr);
    if ElseRuleFires(a) {
      var before, after := a.cond.expr, NestedInElse(a).cond.expr;
      assert after.l == Not(before);
      assert before < after.l && after.l < after;
    }
  }

  /** What a rule makes of one run: `x` where `a` runs `y` and the other way round. */
  lemma {:induction false} NestedInElseRun(w: World, fuel: nat, a: Ast, h: History)
    requires a.If? && a.els.If? && AtomicCondition(a.els.cond.expr) && ElseRuleFires(a)
    ensures var h1 := RunCondition(a.cond, h);
            var x, y := Exec(w, fuel, a.thn, h1), Exec(w, fuel, Unshared(a), h1);
            var was, now := Exec(w, fuel, a, h), Exec(w, fuel, NestedInElse(a), h);
            (was == x && now == y) || (was == y && now == x)
  {
    var outer, inner := a.cond, a.els.cond;
    var notOuter, first := Negated(outer), a.thn == a.els.thn;
    var h1 := RunCondition(outer, h);
    var joined := Joined(notOuter, inner, first);
    SideEffectsIff(inner.expr);
    JoinedConditionRuns(outer, inner, false, h1);
    JoinedConditionRuns(notOuter, inner, first, h);
    assert RunCondition(notOuter, h) == h1;
    var p, q := Test(w, outer.expr, h1), Test(w, inner.expr, h1);
    assert Test(w, notOuter.expr, h1) == !p;
    assert Test(w, joined.expr, h1) == (!p && q != first);
    assert NestedInElse(a) == If(joined, a.thn, Unshared(a));
    assert Exec(w, fuel, a.els, h1) == Exec(w, fuel, if q then a.els.thn else a.els.els, h1);
  }

  /** Two blocks that run alike wherever condition `c` has been computed. */
  ghost predicate AlikeBehind(w: World, c: Condition, x: Ast, y: Ast) {
    forall fuel: nat, h: History :: Exec(w, fuel, x, RunCondition(c, h)) == Exec(w, fuel, y, RunCondition(c, h))
  }

  /** A rule keeps the meaning exactly when no guard holds, or when the shared block and
      the other one run alike behind the outer condition. */
  lemma {:induction false} NestedInElsePreservesIff(w: World, a: Ast)
    requires a.If? && a.els.If? && AtomicCondition(a.els.cond.expr)
    ensures Equivalent(w, a, NestedInElse(a)) <==> !ElseRuleFires(a) || AlikeBehind(w, a.cond, a.thn, Unshared(a))
  {
    NestedInElseUnchangedIff(a);
    if ElseRuleFires(a) {
      if Equivalent(w, a, NestedInElse(a)) {
        forall fuel: nat, h: History
          ensures Exec(w, fuel, a.thn, RunCondition(a.cond, h)) == Exec(w, fuel, Unshared(a), RunCondition(a.cond, h))
        {
          NestedInElseRun(w, fuel, a, h);
          assert Exec(w, fuel, a, h) == Exec(w, fuel, NestedInElse(a), h);
        }
      }
      if AlikeBehind(w, a.cond, a.thn, Unshared(a)) {
        forall fuel: nat, h: History ensures Exec(w, fuel, a, h) == Exec(w, fuel, NestedInElse(a), h) {
          NestedInElseRun(w, fuel, a, h);
          assert Exec(w, fuel, a.thn, RunCondition(a.cond, h)) == Exec(w, fuel, Unshared(a), RunCondition(a.cond, h));
        }
      }
    }
  }

  /** A run on which the first rule goes wrong: neither condition holds, and the block
      that was shared by the other three runs is executed. */
  lemma NestedInElseGoesWrong(fuel: nat)
    ensures var a, b := Block(0, false, 1), Block(1, false, 1);
            var x, y := Code(Block(2, true, 1), Jumps, false), Code(Block(3, true, 1), Jumps, false);
            var t := If(Condition(Atomic(a), false, a), x, If(Condition(Atomic(b), false, b), x, y));
            var w := World((_, _) => false, (_, _) => 0);
            Exec(w, fuel, t, []).h == [Ran(3)] && Exec(w, fuel, NestedInElse(t), []).h == [Ran(2)]
  {
    var a, b := Block(0, false, 1), Block(1, false, 1);
    var x, y := Code(Block(2, true, 1), Jumps, false), Code(Block(3, true, 1), Jumps, false);
    var outer, inner := Condition(Atomic(a), false, a), Condition(Atomic(b), false, b);
    var w := World((_, _) => false, (_, _) => 0);
    NestedInElseSwapsBranches(w, outer, inner, x, y);
    PureConditionRuns(outer.expr, []);
    PureConditionRuns(inner.expr, []);
    var swapped := If(outer, y, If(inner, y, x));
    assert Exec(w, fuel, NestedInElse(If(outer, x, If(inner, x, y))), []) == Exec(w, fuel, swapped, []);
    assert Exec(w, fuel, If(inner, y, x), []) == Exec(w, fuel, x, []);
    assert Exec(w, fuel, If(inner, x, y), []) == Exec(w, fuel, y, []);
  }

  /** The same for the second rule, which runs the other block. */
  lemma {:induction false} MirroredGoesWrong(fuel: nat)
    ensures var a, b := Block(0, false, 1), Block(1, false, 1);
            var x, y := Code(Block(2, true, 1), Jumps, false), Code(Block(3, true, 1), Jumps, false);
            var t := If(Condition(Atomic(a), false, a), x, If(Condition(Atomic(b), false, b), y, x));
            var w := World((_, _) => false, (_, _) => 0);
            Exec(w, fuel, t, []).h == [Ran(2)] && Exec(w, fuel, NestedInElse(t), []).h == [Ran(3)]
  {
    var a, b := Block(0, false, 1), Block(1, false, 1);
    var x, y := Code(Block(2, true, 1), Jumps, false), Code(Block(3, true, 1), Jumps, false);
    var outer, inner := Condition(Atomic(a), false, a), Condition(Atomic(b), false, b);
    var w := World((_, _) => false, (_, _) => 0);
    NestedInElseSwapsBranches(w, outer, inner, x, y);
    PureConditionRuns(outer.expr, []);
    PureConditionRuns(inner.expr, []);
    var swapped := If(outer, y, If(inner, x, y));
    assert Exec(w, fuel, NestedInElse(If(outer, x, If(inner, y, x))), []) == Exec(w, fuel, swapped, []);
    assert Exec(w, fuel, If(inner, x, y), []) == Exec(w, fuel, y, []);
    assert Exec(w, fuel, If(inner, y, x), []) == Exec(w, fuel, x, []);
  }

  // ----- Trivial short circuits -----

  /** All conditions of `if` nodes are of the kind that the passes expect. */
  predicate AtomicConditions(a: Ast) {
    match a
    case If(cond, thn, els) => AtomicCondition(cond.expr) && AtomicConditions(thn) && AtomicConditions(els)
    case Scs(_, body) => AtomicConditions(body)
    case Seq(nodes) => forall i :: 0 <= i < |nodes| ==> AtomicConditions(nodes[i])
    case Switch(_, cases, _, _) => forall i :: 0 <= i < |cases| ==> AtomicConditions(cases[i].body)
    case _ => true
  }

  /** An `if` without `else`, whose condition may be evaluated early. */
  predicate Mergeable(a: Ast)
    requires AtomicConditions(a)
  {
    a.If? && a.els.Null? && !HasSideEffects(a.cond.expr)
  }

  /** The conditions of a chain of nested `if`s are joined from the outside in. */
  function MergedCondition(cond: Condition, thn: Ast): (c: Condition)
    requires AtomicCondition(cond.expr) && AtomicConditions(thn)
    ensures AtomicCondition(c.expr)
    ensures HasSideEffects(c.expr) == HasSideEffects(cond.expr)
    decreases thn
  {
    if Mergeable(thn) then MergedCondition(Joined(cond, thn.cond, false), thn.thn) else cond
  }

  function MergedThen(thn: Ast): (t: Ast)
    requires AtomicConditions(thn)
    ensures AtomicConditions(t) && !Mergeable(t) && (t == thn || t < thn)
    decreases thn
  {
    if Mergeable(thn) then MergedThen(thn.thn) else thn
  }

  /** Nested `if`s without `else` become one, everywhere in the tree. */
  function MergeNested(a: Ast): Ast
    requires AtomicConditions(a)
  {
    match a
    case Seq(nodes) => Seq(MergeNestedSeq(nodes))
    case Scs(kind, body) => Scs(kind, MergeNested(body))
    case Switch(on, cases, v, d) => Switch(on, MergeNestedCases(cases), v, d)
    case If(cond, thn, els) =>
      if els.Null? then If(MergedCondition(cond, thn), MergeNested(MergedThen(thn)), Null)
      else If(cond, MergeNested(thn), MergeNested(els))
    case _ => a
  }

  function MergeNestedSeq(nodes: seq<Ast>): (r: seq<Ast>)
    requires forall i :: 0 <= i < |nodes| ==> AtomicConditions(nodes[i])
    ensures |r| == |nodes|
    ensures forall i :: 0 <= i < |r| ==> r[i] == MergeNested(nodes[i])
  {
    if nodes == [] then [] else [MergeNested(nodes[0])] + MergeNestedSeq(nodes[1..])
  }

  function MergeNestedCases(cases: seq<Case>): (r: seq<Case>)
    requires forall i :: 0 <= i < |cases| ==> AtomicConditions(cases[i].body)
    ensures |r| == |cases|
    ensures forall i :: 0 <= i < |r| ==> r[i] == Case(cases[i].labels, MergeNested(cases[i].body))
  {
    if cases == [] then [] else [Case(cases[0].labels, MergeNested(cases[0].body))] + MergeNestedCases(cases[1..])
  }

  lemma {:induction false} ChainMerges(w: World, cond: Condition, thn: Ast)
    requires AtomicCondition(cond.expr) && AtomicConditions(thn)
    ensures Equivalent(w, If(cond, thn, Null), If(MergedCondition(cond, thn), MergedThen(thn), Null))
    decreases thn
  {
    if Mergeable(thn) {
      var joined := Joined(cond, thn.cond, false);
      ChainMerges(w, joined, thn.thn);
      SharedElse(w, cond, thn.cond, thn.thn, Null);
      assert thn == If(thn.cond, thn.thn, Null);
      var merged := If(MergedCondition(joined, thn.thn), MergedThen(thn.thn), Null);
      forall fuel: nat, h: History ensures Exec(w, fuel, If(cond, thn, Null), h) == Exec(w, fuel, merged, h) {
        assert Exec(w, fuel, If(cond, thn, Null), h) == Exec(w, fuel, If(joined, thn.thn, Null), h);
      }
    }
  }

  /** Merging keeps the trace, although the printer then evaluates all the conditions
      of a chain before the test. */
  lemma {:induction false} MergeNestedPreserves(w: World, a: Ast)
    requires AtomicConditions(a)
    ensures Equivalent(w, a, MergeNested(a))
    decreases a, 0
  {
    match a
    case Seq(nodes) =>
      forall i | 0 <= i < |nodes| ensures Equivalent(w, nodes[i], MergeNestedSeq(nodes)[i]) {
        MergeNestedPreserves(w, nodes[i]);
      }
      SeqCongruence(w, nodes, MergeNestedSeq(nodes));
    case Scs(kind, body) =>
      MergeNestedPreserves(w, body);
      ScsCongruence(w, kind, body, MergeNested(body));
    case Switch(on, cases, v, d) =>
      forall i | 0 <= i < |cases| ensures Equivalent(w, cases[i].body, MergeNestedCases(cases)[i].body) {
        MergeNestedPreserves(w, cases[i].body);
      }
      SwitchCongruence(w, on, cases, MergeNestedCases(cases), v, d, v, d);
    case If(cond, thn, els) =>
      if els.Null? {
        MergedIfPreserves(w, cond, thn);
      } else {
        MergeNestedPreserves(w, thn);
        MergeNestedPreserves(w, els);
        IfCongruence(w, cond, thn, MergeNested(thn), els, MergeNested(els));
      }
    case _ =>
  }

  lemma {:induction false} MergedIfPreserves(w: World, cond: Condition, thn: Ast)
    requires AtomicCondition(cond.expr) && AtomicConditions(thn)
    ensures Equivalent(w, If(cond, thn, Null), MergeNested(If(cond, thn, Null)))
    decreases thn, 1
  {
    var c, t := MergedCondition(cond, thn), MergedThen(thn);
    ChainMerges(w, cond, thn);
    MergeNestedPreserves(w, t);
    IfCongruence(w, c, t, MergeNested(t), Null, Null);
    forall fuel: nat, h: History
      ensures Exec(w, fuel, If(cond, thn, Null), h) == Exec(w, fuel, If(c, MergeNested(t), Null), h)
    {
      assert Exec(w, fuel, If(cond, thn, Null), h) == Exec(w, fuel, If(c, t, Null), h);
    }
  }

  /** No `if` without `else` has another one with a pure condition for its `then`. */
  predicate FullyMerged(a: Ast) {
    match a
    case If(_, thn, els) =>
      && !(els.Null? && thn.If? && thn.els.Null? && Pure(thn.cond.expr))
      && FullyMerged(thn) && FullyMerged(els)
    case Scs(_, body) => FullyMerged(body)
    case Seq(nodes) => forall i :: 0 <= i < |nodes| ==> FullyMerged(nodes[i])
    case Switch(_, cases, _, _) => forall i :: 0 <= i < |cases| ==> FullyMerged(cases[i].body)
    case _ => true
  }

  /** One pass merges everything, so the visits that the code repeats after a merge
      find nothing more to do. */
  lemma {:induction false} MergeNestedIsComplete(a: Ast)
    requires AtomicConditions(a)
    ensures AtomicConditions(MergeNested(a)) && FullyMerged(MergeNested(a))
    ensures !Mergeable(a) ==> !Mergeable(MergeNested(a))
    decreases a
  {
    match a
    case Seq(nodes) => forall i | 0 <= i < |nodes| { MergeNestedIsComplete(nodes[i]); }
    case Scs(_, body) => MergeNestedIsComplete(body);
    case Switch(_, cases, _, _) => forall i | 0 <= i < |cases| { MergeNestedIsComplete(cases[i].body); }
    case If(cond, thn, els) =>
      if els.Null? {
        MergeNestedIsComplete(MergedThen(thn));
        var t := MergeNested(MergedThen(thn));
        if t.If? { SideEffectsIff(t.cond.expr); }
      } else {
        MergeNestedIsComplete(thn);
        MergeNestedIsComplete(els);
        assert !MergeNested(els).Null?;
      }
    case _ =>
  }
}

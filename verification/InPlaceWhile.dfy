/** Matching of while loops on the linked nodes. */
module InPlaceWhile {
  import opened Ghast
  import opened Canonicalize
  import opened WhileMatching
  import opened AstNode

  // ----- Attaching a computation -----

  function AttachTrees(trees: seq<Ast>, c: Condition): (r: seq<Ast>)
    ensures |r| == |trees| && forall j :: 0 <= j < |trees| ==> r[j] == Attach(trees[j], c)
  {
    if trees == [] then [] else [Attach(trees[0], c)] + AttachTrees(trees[1..], c)
  }

  lemma {:induction false} AttachBuild(s: Shape, f: Flags, trees: seq<Ast>, c: Condition)
    requires Fits(s, |trees|)
    ensures !s.ScsShape? && !s.ContinueShape? ==> Attach(Build(s, f, trees), c) == Build(s, f, AttachTrees(trees, c))
    ensures s.ScsShape? ==> Attach(Build(s, f, trees), c) == Build(s, f, trees)
    ensures s.ContinueShape? ==>
              Attach(Build(s, f, trees), c) == Build(ContinueShape(Computes(c), s.implicit), f, trees)
  {
    match s
    case SeqShape => assert AttachTrees(trees, c) == AttachSeq(trees, c);
    case SwitchShape(_, labels) =>
      assert CasesOf(labels, AttachTrees(trees, c)) == AttachCases(CasesOf(labels, trees), c);
    case _ =>
  }

  /** The computation-free continues of a node are those of its children. */
  lemma {:induction false} KidsCarryNothing(s: Shape, f: Flags, trees: seq<Ast>)
    requires Fits(s, |trees|) && ContinuesCarry(Build(s, f, trees), NoComputation) && !s.ScsShape?
    ensures forall j :: 0 <= j < |trees| ==> ContinuesCarry(trees[j], NoComputation)
  {
    match s
    case SwitchShape(_, labels) =>
      var cases := CasesOf(labels, trees);
      forall j | 0 <= j < |trees| ensures ContinuesCarry(trees[j], NoComputation) { assert cases[j].body == trees[j]; }
    case _ =>
  }

  method AddComputationToKid(kids: seq<Node?>, i: nat, c: Condition, ghost trees: seq<Ast>, ghost below: set<Node>)
    requires i < |kids| && AreKids(kids, trees, below) && ContinuesCarry(trees[i], NoComputation)
    modifies below
    ensures AreKids(kids, trees[i := Attach(trees[i], c)], below)
    decreases below, 2
  {
    if kids[i] != null {
      AddComputationToContinue(kids[i], c);
    }
  }

  method AddComputationToKids(kids: seq<Node?>, c: Condition, ghost trees: seq<Ast>, ghost below: set<Node>)
    requires AreKids(kids, trees, below)
    requires forall j :: 0 <= j < |trees| ==> ContinuesCarry(trees[j], NoComputation)
    modifies below
    ensures AreKids(kids, AttachTrees(trees, c), below)
    decreases below, 3
  {
    ghost var now := trees;
    for i := 0 to |kids|
      invariant AreKids(kids, now, below)
      invariant forall j :: 0 <= j < i ==> now[j] == Attach(trees[j], c)
      invariant forall j :: i <= j < |kids| ==> now[j] == trees[j]
    {
      AddComputationToKid(kids, i, c, now, below);
      now := now[i := Attach(trees[i], c)];
    }
    assert now == AttachTrees(trees, c);
  }

  /** Every continue of the current loop gets the computation, and none of them had
      one before. */
  method AddComputationToContinue(n: Node, c: Condition)
    requires n.Valid() && ContinuesCarry(n.Tree(), NoComputation)
    modifies n.repr
    ensures n.Valid() && n.repr == old(n.repr) && n.Tree() == Attach(old(n.Tree()), c)
    decreases n.repr, 1
  {
    ghost var flags, trees, below := n.AllFlags(), n.trees, n.repr - {n};
    AttachBuild(n.shape, flags, trees, c);
    if n.shape.ContinueShape? {
      assert n.shape.computation.NoComputation?;
      n.shape := ContinueShape(Computes(c), n.shape.implicit);
      n.Refresh(trees, below);
    } else if !n.shape.ScsShape? {
      KidsCarryNothing(n.shape, flags, trees);
      AddComputationToKids(n.kids, c, trees, below);
      n.Refresh(AttachTrees(trees, c), below);
    }
  }

  // ----- Matching -----

  function MatchTrees(trees: seq<Ast>): (r: seq<Ast>)
    ensures |r| == |trees| && forall j :: 0 <= j < |trees| ==> r[j] == MatchWhile(trees[j])
  {
    if trees == [] then [] else [MatchWhile(trees[0])] + MatchTrees(trees[1..])
  }

  lemma {:induction false} MatchBuild(s: Shape, f: Flags, trees: seq<Ast>)
    requires Fits(s, |trees|) && !s.ScsShape?
    ensures MatchWhile(Build(s, f, trees)) == Build(s, f, MatchTrees(trees))
  {
    match s
    case SeqShape => assert MatchTrees(trees) == MatchWhileSeq(trees);
    case SwitchShape(_, labels) => assert CasesOf(labels, MatchTrees(trees)) == MatchWhileCases(CasesOf(labels, trees));
    case _ =>
  }

  /** What the pass may rely on; no computation has been attached either. */
  ghost predicate Fresh(a: Ast) {
    Unmatched(a) && ContinuesCarry(a, NoComputation)
  }

  lemma {:induction false} KidsAreFresh(s: Shape, f: Flags, trees: seq<Ast>)
    requires Fits(s, |trees|) && Fresh(Build(s, f, trees))
    ensures forall j :: 0 <= j < |trees| ==> Fresh(trees[j])
  {
    match s
    case SwitchShape(_, labels) =>
      var cases := CasesOf(labels, trees);
      forall j | 0 <= j < |trees| ensures Fresh(trees[j]) { assert cases[j].body == trees[j]; }
    case _ =>
  }

  method MatchKid(kids: seq<Node?>, i: nat, ghost trees: seq<Ast>, ghost below: set<Node>)
    requires i < |kids| && AreKids(kids, trees, below) && Fresh(trees[i])
    modifies below
    ensures AreKids(kids, trees[i := MatchWhile(trees[i])], below)
    decreases below, 3
  {
    if kids[i] != null {
      ghost var mine := kids[i].repr;
      KidAndOthers(kids, i, trees, below);
      MatchFirst(kids, i, trees, below);
      OthersAndKid(kids, i, trees, below, mine);
      assert below + mine == below;
    }
  }

  method MatchFirst(kids: seq<Node?>, i: nat, ghost trees: seq<Ast>, ghost below: set<Node>)
    requires i < |kids| && kids[i] != null && kids[i].Valid() && kids[i].repr <= below
    requires Others(kids, i, trees, below, kids[i].repr) && Fresh(kids[i].Tree())
    modifies kids[i].repr
    ensures kids[i].Valid() && kids[i].repr == old(kids[i].repr) && kids[i].Tree() == MatchWhile(old(kids[i].Tree()))
    ensures Others(kids, i, trees, below, kids[i].repr)
    decreases below, 2
  {
    MatchWhileInPlace(kids[i]);
  }

  method MatchKids(kids: seq<Node?>, ghost trees: seq<Ast>, ghost below: set<Node>)
    requires AreKids(kids, trees, below) && forall j :: 0 <= j < |trees| ==> Fresh(trees[j])
    modifies below
    ensures AreKids(kids, MatchTrees(trees), below)
    decreases below, 4
  {
    ghost var now := trees;
    for i := 0 to |kids|
      invariant AreKids(kids, now, below)
      invariant forall j :: 0 <= j < i ==> now[j] == MatchWhile(trees[j])
      invariant forall j :: i <= j < |kids| ==> now[j] == trees[j]
    {
      MatchKid(kids, i, now, below);
      now := now[i := MatchWhile(trees[i])];
    }
    assert now == MatchTrees(trees);
  }

  method MatchWhileInPlace(n: Node)
    requires n.Valid() && Fresh(n.Tree())
    modifies n.repr
    ensures n.Valid() && n.repr == old(n.repr) && n.Tree() == MatchWhile(old(n.Tree()))
    decreases n.repr, 1
  {
    if n.shape.ScsShape? {
      MatchScs(n.shape, n.AllFlags(), n.trees);
      MatchChildren(n);
      MatchLoop(n);
    } else {
      MatchBuild(n.shape, n.AllFlags(), n.trees);
      MatchChildren(n);
    }
  }

  /** What matching does to a loop, in terms of its matched body. */
  ghost function Matched(kind: LoopKind, inner: Ast): Ast {
    if !kind.DoWhile? && StartsWithTest(inner) then
      Scs(While(StayCondition(inner)), Attach(Untested(inner), StayCondition(inner)))
    else Scs(kind, inner)
  }

  lemma {:induction false} MatchScs(s: Shape, f: Flags, trees: seq<Ast>)
    requires s.ScsShape? && Fits(s, |trees|) && Fresh(Build(s, f, trees))
    ensures MatchWhile(Build(s, f, trees)) == Matched(s.kind, MatchTrees(trees)[0])
    ensures ContinuesCarry(MatchTrees(trees)[0], NoComputation) && KeepsBody(s.kind, MatchTrees(trees)[0])
  {
    KidsAreFresh(s, f, trees);
    MatchWhileAttachesExactly(trees[0]);
    if s.kind.WhileTrue? && StartsWithTest(MatchWhile(trees[0])) { MatchedLoopHasBody(trees[0]); }
  }

  /** When the test is taken out of the body, a body is left. */
  predicate KeepsBody(kind: LoopKind, inner: Ast) {
    !kind.DoWhile? && StartsWithTest(inner) ==> !Untested(inner).Null?
  }

  method MatchChildren(n: Node)
    requires n.Valid() && Fresh(n.Tree())
    modifies n.repr
    ensures n.Valid() && n.repr == old(n.repr) && n.shape == old(n.shape) && n.AllFlags() == old(n.AllFlags())
    ensures n.trees == MatchTrees(old(n.trees))
    decreases n.repr, 0
  {
    ghost var trees, below := n.trees, n.repr - {n};
    KidsAreFresh(n.shape, n.AllFlags(), trees);
    MatchKids(n.kids, trees, below);
    n.Refresh(MatchTrees(trees), below);
  }

  /** The loop whose body has already been visited. */
  method MatchLoop(n: Node)
    requires n.Valid() && n.shape.ScsShape? && ContinuesCarry(n.trees[0], NoComputation)
    requires KeepsBody(n.shape.kind, n.trees[0])
    modifies n.repr
    ensures n.Valid() && n.repr == old(n.repr)
    ensures n.Tree() == Matched(old(n.shape.kind), old(n.trees[0]))
  {
    var body := n.kids[0];
    if body == null || n.shape.kind.DoWhile? {
      return;
    }
    var found, stay, c := FindTest(body);
    if !found {
      return;
    }
    n.shape := ScsShape(While(c));
    UntestedCarries(body.Tree());
    RemoveTest(n, body, stay);
    AddComputationToLoop(n, c);
  }

  /** The tree of a node is of the kind that its shape says. */
  lemma {:induction false} TreeKind(n: Node)
    requires n.Valid()
    ensures n.Tree().If? <==> n.shape.IfShape?
    ensures n.Tree().Seq? <==> n.shape.SeqShape?
    ensures n.Tree().Break? <==> n.shape.BreakShape?
    ensures n.shape.IfShape? ==> n.Tree() == If(n.shape.cond, TreeOf(n.kids[0]), TreeOf(n.kids[1]))
    ensures n.shape.SeqShape? ==> n.Tree() == Seq(n.trees)
  {
  }

  /** The branch that stays is a subtree inside the test. */
  ghost predicate StaysIn(body: Node, stay: Node?)
    reads body, body.repr
    requires body.Valid()
  {
    stay != null ==>
      && stay in body.repr && body != stay && stay.repr <= body.repr && body !in stay.repr && stay.Valid()
      && (body.shape.SeqShape? ==> body.kids != [] && body.kids[0] != null && stay.repr <= body.kids[0].repr)
  }

  /** Looks for an `if` at the start of the body that breaks out of the loop. */
  method FindTest(body: Node) returns (found: bool, stay: Node?, c: Condition)
    requires body.Valid()
    ensures found <==> StartsWithTest(body.Tree())
    ensures found ==> c == StayCondition(body.Tree()) && StaysIn(body, stay) && TreeOf(stay) == Staying(body.Tree())
  {
    var first := body;
    TreeKind(body);
    if body.shape.SeqShape? && |body.kids| > 0 {
      if body.kids[0] == null {
        return false, null, Condition(LoopStateCompare(NotPresent), false, Block(0, false, 0));
      }
      first := body.kids[0];
      TreeKind(first);
    }
    assert first.Tree() == FirstOf(body.Tree());
    if !first.shape.IfShape? {
      return false, null, Condition(LoopStateCompare(NotPresent), false, Block(0, false, 0));
    }
    var thn, els := first.kids[0], first.kids[1];
    if thn != null { TreeKind(thn); }
    if els != null { TreeKind(els); }
    if els != null && els.shape.BreakShape? {
      return true, thn, first.shape.cond;
    }
    if thn != null && thn.shape.BreakShape? {
      return true, els, Negated(first.shape.cond);
    }
    return false, null, first.shape.cond;
  }

  /** Takes the leading test out of the body; the branch that stays takes its place. */
  method RemoveTest(n: Node, body: Node, stay: Node?)
    requires n.Valid() && n.shape.ScsShape? && n.kids[0] == body && body.Valid() && StartsWithTest(body.Tree())
    requires StaysIn(body, stay) && TreeOf(stay) == Staying(body.Tree())
    modifies n, body
    ensures n.Valid() && n.repr == old(n.repr) && n.shape == old(n.shape) && n.AllFlags() == old(n.AllFlags())
    ensures n.trees == [Untested(old(body.Tree()))]
  {
    ghost var inner, below := body.Tree(), n.repr - {n};
    TreeKind(body);
    if body.shape.SeqShape? {
      RemoveFirst(body, stay);
    } else {
      n.kids := [stay];
    }
    n.Refresh([Untested(inner)], below);
  }

  method RemoveFirst(body: Node, stay: Node?)
    requires body.Valid() && body.shape.SeqShape? && StartsWithTest(body.Tree())
    requires StaysIn(body, stay) && TreeOf(stay) == Staying(body.Tree())
    modifies body
    ensures body.Valid() && body.repr == old(body.repr) && body.Tree() == Untested(old(body.Tree()))
  {
    ghost var mine := body.repr - {body};
    TreeKind(body);
    ghost var rest := body.trees[1..];
    NewFirst(body, stay);
    body.kids := (if stay == null then [] else [stay]) + body.kids[1..];
    body.Refresh((if stay == null then [] else [TreeOf(stay)]) + rest, mine);
    TreeKind(body);
  }

  lemma {:induction false} NewFirst(body: Node, stay: Node?)
    requires body.Valid() && body.shape.SeqShape? && body.kids != [] && StaysIn(body, stay)
    ensures AreKids((if stay == null then [] else [stay]) + body.kids[1..],
                    (if stay == null then [] else [TreeOf(stay)]) + body.trees[1..], body.repr - {body})
  {
    var rest := body.kids[1..];
    assert AreKids(rest, body.trees[1..], body.repr - {body});
    if stay != null {
      forall j | 0 <= j < |rest| && rest[j] != null ensures stay.repr !! rest[j].repr {
        assert rest[j] == body.kids[j + 1];
      }
    }
  }

  lemma {:induction false} UntestedCarries(inner: Ast)
    requires StartsWithTest(inner) && ContinuesCarry(inner, NoComputation)
    ensures ContinuesCarry(Untested(inner), NoComputation)
  {
    if inner.Seq? { assert ContinuesCarry(inner.nodes[0], NoComputation); }
  }

  /** The body is never missing where the pass looks for continues. */
  method AddComputationToLoop(n: Node, c: Condition)
    requires n.Valid() && n.shape.ScsShape? && n.kids[0] != null && ContinuesCarry(n.trees[0], NoComputation)
    modifies n.repr
    ensures n.Valid() && n.repr == old(n.repr) && n.shape == old(n.shape) && n.AllFlags() == old(n.AllFlags())
    ensures n.trees == [Attach(old(n.trees[0]), c)]
  {
    ghost var trees, below := n.trees, n.repr - {n};
    AddComputationToKid(n.kids, 0, c, trees, below);
    n.Refresh([Attach(trees[0], c)], below);
  }
}

/** The break fixer, as it walks over the linked nodes with its stack of loops and
    of the switches entered inside each loop. */
module InPlaceBreaks {
  import opened Ghast
  import opened Emission
  import opened AstNode

  /** No flag has been set yet. */
  predicate Unflagged(a: Ast) {
    match a
    case If(_, thn, els) => Unflagged(thn) && Unflagged(els)
    case Scs(_, body) => Unflagged(body)
    case Seq(nodes) => forall i :: 0 <= i < |nodes| ==> Unflagged(nodes[i])
    case Switch(_, cases, v, d) => !v && !d && forall i :: 0 <= i < |cases| ==> Unflagged(cases[i].body)
    case Break(fromSwitch) => !fromSwitch
    case _ => true
  }

  /** The fixed children. */
  function FixTrees(trees: seq<Ast>, inLoop: bool, depth: nat): (r: seq<Ast>)
    ensures |r| == |trees|
  {
    if trees == [] then [] else [Fix(trees[0], inLoop, depth)] + FixTrees(trees[1..], inLoop, depth)
  }

  lemma {:induction false} FixedTreesAre(trees: seq<Ast>, fixed: seq<Ast>, inLoop: bool, depth: nat)
    requires |trees| == |fixed| && forall j :: 0 <= j < |trees| ==> fixed[j] == Fix(trees[j], inLoop, depth)
    ensures fixed == FixTrees(trees, inLoop, depth)
  {
    if trees != [] { FixedTreesAre(trees[1..], fixed[1..], inLoop, depth); }
  }

  lemma {:induction false} FixTreesAt(trees: seq<Ast>, inLoop: bool, depth: nat)
    ensures forall j :: 0 <= j < |trees| ==> FixTrees(trees, inLoop, depth)[j] == Fix(trees[j], inLoop, depth)
  {
    if trees != [] { FixTreesAt(trees[1..], inLoop, depth); }
  }

  /** Fixing a node that is no loop, switch or break is fixing its children. */
  lemma {:induction false} FixBuild(s: Shape, f: Flags, trees: seq<Ast>, inLoop: bool, depth: nat)
    requires Fits(s, |trees|) && !s.BreakShape? && !s.ScsShape? && !s.SwitchShape?
    ensures Build(s, f, FixTrees(trees, inLoop, depth)) == Fix(Build(s, f, trees), inLoop, depth)
    ensures BreaksLoop(Build(s, f, trees)) == SomeBreaks(trees)
  {
    FixTreesAt(trees, inLoop, depth);
    match s
    case SeqShape => assert FixTrees(trees, inLoop, depth) == FixSeq(trees, inLoop, depth);
    case IfShape(_) => assert SomeBreaks(trees) == (BreaksLoop(trees[0]) || BreaksLoop(trees[1]));
    case _ =>
  }

  predicate SomeBreaks(trees: seq<Ast>) {
    exists i :: 0 <= i < |trees| && BreaksLoop(trees[i])
  }

  lemma {:induction false} SwitchBreaks(on: Scrutinee, labels: seq<seq<nat>>, f: Flags, trees: seq<Ast>)
    requires |labels| == |trees|
    ensures BreaksLoop(Build(SwitchShape(on, labels), f, trees)) == SomeBreaks(trees)
  {
    var cases := CasesOf(labels, trees);
    if SomeBreaks(trees) {
      var i :| 0 <= i < |trees| && BreaksLoop(trees[i]);
      assert BreaksLoop(cases[i].body);
    }
  }

  lemma {:induction false} FixSwitch(on: Scrutinee, labels: seq<seq<nat>>, f: Flags, before: seq<Ast>, after: seq<Ast>,
                                     inLoop: bool, depth: nat, g: Flags)
    requires |labels| == |before| == |after|
    requires forall j :: 0 <= j < |before| ==> after[j] == Fix(before[j], inLoop, depth + 1)
    requires g.needsDispatcher == (inLoop && SomeBreaks(before)) && g.needsVar == (g.needsDispatcher && depth == 0)
    ensures Build(SwitchShape(on, labels), g, after) == Fix(Build(SwitchShape(on, labels), f, before), inLoop, depth)
  {
    SwitchBreaks(on, labels, f, before);
    var cases, fixed := CasesOf(labels, before), CasesOf(labels, after);
    FixedCases(cases, fixed, inLoop, depth);
  }

  lemma {:induction false} FixedCases(cases: seq<Case>, fixed: seq<Case>, inLoop: bool, depth: nat)
    requires |cases| == |fixed|
    requires forall j :: 0 <= j < |cases| ==>
               fixed[j].labels == cases[j].labels && fixed[j].body == Fix(cases[j].body, inLoop, depth + 1)
    ensures fixed == FixCases(cases, inLoop, depth)
  {
    var r := FixCases(cases, inLoop, depth);
    assert forall j :: 0 <= j < |cases| ==> fixed[j] == r[j];
  }

  // What the placement of jumps says about the children.

  lemma {:induction false} KidsArePlaced(s: Shape, f: Flags, trees: seq<Ast>, inLoop: bool, depth: nat)
    requires Fits(s, |trees|) && Placed(Build(s, f, trees), inLoop, depth) && Unflagged(Build(s, f, trees))
    ensures forall j :: 0 <= j < |trees| ==>
              Unflagged(trees[j])
              && Placed(trees[j], inLoop || s.ScsShape?,
                        if s.ScsShape? then 0 else if s.SwitchShape? then depth + 1 else depth)
  {
    match s
    case SwitchShape(_, labels) =>
      var cases := CasesOf(labels, trees);
      forall j | 0 <= j < |trees| ensures Unflagged(trees[j]) && Placed(trees[j], inLoop, depth + 1) {
        assert cases[j].body == trees[j];
      }
    case _ =>
  }

  /** The flags of the enclosing switches after a visit: all of them need a dispatcher,
      and the outermost one a variable, when the visited part breaks the loop. */
  twostate predicate Marked(switches: seq<Node>, breaks: bool)
    reads switches
  {
    && (forall s :: s in switches ==> s.needsDispatcher == (old(s.needsDispatcher) || breaks))
    && (forall i :: 0 <= i < |switches| ==>
          switches[i].needsVar == (old(switches[i].needsVar) || (i == 0 && breaks)))
  }

  predicate Distinct(switches: seq<Node>) {
    forall i, j :: 0 <= i < j < |switches| ==> switches[i] != switches[j]
  }

  class SwitchBreaksFixer {
    var loopStack: seq<(Node, seq<Node>)>

    constructor ()
      ensures loopStack == []
    {
      loopStack := [];
    }

    /** The pass: afterwards exactly the breaks and switches that need it are flagged. */
    method Run(root: Node)
      requires root.Valid() && Placed(root.Tree(), false, 0) && Unflagged(root.Tree())
      modifies root.repr, this`loopStack
      ensures root.Valid() && root.repr == old(root.repr) && root.Tree() == Fix(old(root.Tree()), false, 0)
    {
      loopStack := [];
      Exec(root, false, 0);
    }

    /** The switches entered since the innermost loop. */
    function ActiveSwitches(): seq<Node>
      reads this
    {
      if loopStack == [] then [] else loopStack[|loopStack| - 1].1
    }

    /** The stack describes the place of the visited part in the tree. */
    ghost predicate At(inLoop: bool, depth: nat, below: set<Node>)
      reads this
    {
      && inLoop == (loopStack != []) && (inLoop ==> |ActiveSwitches()| == depth)
      && Distinct(ActiveSwitches()) && forall s :: s in ActiveSwitches() ==> s !in below
    }

    method Exec(n: Node, ghost inLoop: bool, ghost depth: nat)
      requires n.Valid() && At(inLoop, depth, n.repr) && Placed(n.Tree(), inLoop, depth) && Unflagged(n.Tree())
      modifies n.repr, this`loopStack, ActiveSwitches()`needsVar, ActiveSwitches()`needsDispatcher
      ensures n.Valid() && n.repr == old(n.repr) && loopStack == old(loopStack)
      ensures n.Tree() == Fix(old(n.Tree()), inLoop, depth)
      ensures Marked(ActiveSwitches(), BreaksLoop(old(n.Tree())))
      decreases n.repr, 1
    {
      if n.shape.ScsShape? {
        ExecLoop(n, inLoop, depth);
      } else if n.shape.SwitchShape? {
        ExecSwitch(n, inLoop, depth);
      } else if n.shape.BreakShape? {
        ExecBreak(n, inLoop, depth);
      } else {
        ExecOther(n, inLoop, depth);
      }
    }

    method ExecOther(n: Node, ghost inLoop: bool, ghost depth: nat)
      requires n.Valid() && At(inLoop, depth, n.repr) && Placed(n.Tree(), inLoop, depth) && Unflagged(n.Tree())
      requires !n.shape.ScsShape? && !n.shape.SwitchShape? && !n.shape.BreakShape?
      modifies n.repr, this`loopStack, ActiveSwitches()`needsVar, ActiveSwitches()`needsDispatcher
      ensures n.Valid() && n.repr == old(n.repr) && loopStack == old(loopStack)
      ensures n.Tree() == Fix(old(n.Tree()), inLoop, depth)
      ensures Marked(ActiveSwitches(), BreaksLoop(old(n.Tree())))
      decreases n.repr, 0
    {
      ghost var start, flags, below := n.trees, n.AllFlags(), n.repr - {n};
      KidsArePlaced(n.shape, flags, start, inLoop, depth);
      FixBuild(n.shape, flags, start, inLoop, depth);
      ghost var trees := ExecKids(n.kids, start, below, inLoop, depth);
      FixedTreesAre(start, trees, inLoop, depth);
      n.Refresh(trees, below);
    }

    method ExecBreak(n: Node, ghost inLoop: bool, ghost depth: nat)
      requires n.Valid() && At(inLoop, depth, n.repr) && n.shape.BreakShape? && Placed(n.Tree(), inLoop, depth)
      requires Unflagged(n.Tree())
      modifies n, ActiveSwitches()`needsVar, ActiveSwitches()`needsDispatcher
      ensures n.Valid() && n.repr == old(n.repr) && n.Tree() == Fix(old(n.Tree()), inLoop, depth)
      ensures Marked(ActiveSwitches(), true)
    {
      assert loopStack != [];
      var switches := ActiveSwitches();
      if switches != [] {
        switches[0].needsVar := true;
        n.fromSwitch := true;
        for i := 0 to |switches|
          invariant n.Valid() && n.fromSwitch && n.repr == old(n.repr) && n.shape == old(n.shape)
          invariant forall j :: 0 <= j < i ==> switches[j].needsDispatcher
          invariant forall j :: i <= j < |switches| ==> switches[j].needsDispatcher == old(switches[j].needsDispatcher)
          invariant forall j :: 0 <= j < |switches| ==> switches[j].needsVar == (j == 0 || old(switches[j].needsVar))
        {
          switches[i].needsDispatcher := true;
        }
      }
    }

    method ExecKid(kids: seq<Node?>, i: nat, ghost trees: seq<Ast>, ghost below: set<Node>, ghost inLoop: bool,
                   ghost depth: nat)
      requires i < |kids| && AreKids(kids, trees, below) && At(inLoop, depth, below)
      requires Placed(trees[i], inLoop, depth) && Unflagged(trees[i])
      modifies below, this`loopStack, ActiveSwitches()`needsVar, ActiveSwitches()`needsDispatcher
      ensures loopStack == old(loopStack) && Marked(ActiveSwitches(), BreaksLoop(trees[i]))
      ensures AreKids(kids, trees[i := Fix(trees[i], inLoop, depth)], below)
      decreases below, 3
    {
      if kids[i] != null {
        ghost var mine := kids[i].repr;
        KidAndOthers(kids, i, trees, below);
        ExecFirst(kids, i, trees, below, inLoop, depth);
        OthersAndKid(kids, i, trees, below, mine);
        assert below + mine == below;
      } else {
        NothingToFix(inLoop, depth);
      }
    }

    /** A child is fixed, the others are left alone. */
    method ExecFirst(kids: seq<Node?>, i: nat, ghost trees: seq<Ast>, ghost below: set<Node>, ghost inLoop: bool,
                     ghost depth: nat)
      requires i < |kids| && kids[i] != null && kids[i].Valid() && kids[i].repr <= below
      requires Others(kids, i, trees, below, kids[i].repr) && At(inLoop, depth, below)
      requires Placed(kids[i].Tree(), inLoop, depth) && Unflagged(kids[i].Tree())
      modifies kids[i].repr, this`loopStack, ActiveSwitches()`needsVar, ActiveSwitches()`needsDispatcher
      ensures loopStack == old(loopStack) && Marked(ActiveSwitches(), BreaksLoop(old(kids[i].Tree())))
      ensures kids[i].Valid() && kids[i].repr == old(kids[i].repr)
      ensures kids[i].Tree() == Fix(old(kids[i].Tree()), inLoop, depth)
      ensures Others(kids, i, trees, below, kids[i].repr)
      decreases below, 2
    {
      Exec(kids[i], inLoop, depth);
    }

    method ExecNext(kids: seq<Node?>, i: nat, ghost fixed: seq<Ast>, ghost trees: seq<Ast>, ghost below: set<Node>,
                    ghost inLoop: bool, ghost depth: nat)
      returns (ghost fixed2: seq<Ast>)
      requires i < |kids| && AreKids(kids, fixed, below) && At(inLoop, depth, below)
      requires AllPlaced(trees, inLoop, depth) && FixedUpTo(fixed, trees, i, inLoop, depth)
      modifies below, this`loopStack, ActiveSwitches()`needsVar, ActiveSwitches()`needsDispatcher
      ensures loopStack == old(loopStack) && Marked(ActiveSwitches(), BreaksLoop(trees[i]))
      ensures AreKids(kids, fixed2, below) && FixedUpTo(fixed2, trees, i + 1, inLoop, depth)
      decreases below, 4
    {
      OneMoreFixed(fixed, trees, i, inLoop, depth);
      ExecKid(kids, i, fixed, below, inLoop, depth);
      fixed2 := fixed[i := Fix(fixed[i], inLoop, depth)];
    }

    method ExecKids(kids: seq<Node?>, ghost trees: seq<Ast>, ghost below: set<Node>, ghost inLoop: bool,
                    ghost depth: nat)
      returns (ghost fixed: seq<Ast>)
      requires AreKids(kids, trees, below) && At(inLoop, depth, below)
      requires AllPlaced(trees, inLoop, depth)
      modifies below, this`loopStack, ActiveSwitches()`needsVar, ActiveSwitches()`needsDispatcher
      ensures loopStack == old(loopStack) && Marked(ActiveSwitches(), SomeBreaks(trees))
      ensures AreKids(kids, fixed, below)
      ensures forall j :: 0 <= j < |trees| ==> fixed[j] == Fix(trees[j], inLoop, depth)
      decreases below, 5
    {
      fixed := trees;
      ghost var active := ActiveSwitches();
      var i := 0;
      assert trees[..0] == [];
      while i < |kids|
        invariant 0 <= i <= |kids| && loopStack == old(loopStack)
        invariant AreKids(kids, fixed, below)
        invariant ActiveSwitches() == active && Marked(active, SomeBreaks(trees[..i]))
        invariant FixedUpTo(fixed, trees, i, inLoop, depth)
      {
        OneMoreBreaks(trees, i);
        fixed := ExecNext(kids, i, fixed, trees, below, inLoop, depth);
        i := i + 1;
      }
      assert trees[..i] == trees;
    }

    method ExecLoop(n: Node, ghost inLoop: bool, ghost depth: nat)
      requires n.Valid() && At(inLoop, depth, n.repr) && n.shape.ScsShape?
      requires Placed(n.Tree(), inLoop, depth) && Unflagged(n.Tree())
      modifies n.repr, this`loopStack
      ensures n.Valid() && n.repr == old(n.repr) && loopStack == old(loopStack)
      ensures n.Tree() == Fix(old(n.Tree()), inLoop, depth)
      decreases n.repr, 0
    {
      ghost var start, flags, below := n.trees, n.AllFlags(), n.repr - {n};
      KidsArePlaced(n.shape, flags, start, inLoop, depth);
      ghost var trees := ExecInside(n, start, below);
      LoopIsFixed(n.shape.kind, flags, start, trees, inLoop, depth);
      n.Refresh(trees, below);
    }

    /** The body is visited with the loop on top of the stack, and no active switch. */
    method ExecInside(n: Node, ghost start: seq<Ast>, ghost below: set<Node>) returns (ghost trees: seq<Ast>)
      requires AreKids(n.kids, start, below) && n !in below && AllPlaced(start, true, 0)
      modifies below, this`loopStack
      ensures loopStack == old(loopStack) && AreKids(n.kids, trees, below)
      ensures forall j :: 0 <= j < |start| ==> trees[j] == Fix(start[j], true, 0)
      decreases below, 6
    {
      loopStack := loopStack + [(n, [])];
      trees := ExecKids(n.kids, start, below, true, 0);
      assert ActiveSwitches() == [];
      loopStack := loopStack[..|loopStack| - 1];
    }

    method ExecSwitch(n: Node, ghost inLoop: bool, ghost depth: nat)
      requires n.Valid() && At(inLoop, depth, n.repr) && n.shape.SwitchShape?
      requires Placed(n.Tree(), inLoop, depth) && Unflagged(n.Tree())
      modifies n.repr, this`loopStack, ActiveSwitches()`needsVar, ActiveSwitches()`needsDispatcher
      ensures n.Valid() && n.repr == old(n.repr) && loopStack == old(loopStack)
      ensures n.Tree() == Fix(old(n.Tree()), inLoop, depth)
      ensures Marked(ActiveSwitches(), BreaksLoop(old(n.Tree())))
      decreases n.repr, 0
    {
      ghost var start, flags, below := n.trees, n.AllFlags(), n.repr - {n};
      KidsArePlaced(n.shape, flags, start, inLoop, depth);
      SwitchBreaks(n.shape.on, n.shape.labels, flags, start);
      ghost var trees := ExecCases(n, start, below, inLoop, depth);
      n.Refresh(trees, below);
      FixSwitch(n.shape.on, n.shape.labels, flags, start, trees, inLoop, depth, n.AllFlags());
    }

    /** The switch becomes the innermost active one. */
    method PushSwitch(n: Node, ghost below: set<Node>, ghost depth: nat)
      requires At(true, depth, below) && n in below
      modifies this`loopStack
      ensures At(true, depth + 1, below - {n}) && ActiveSwitches() == old(ActiveSwitches()) + [n]
      ensures |loopStack| == |old(loopStack)| && loopStack[..|loopStack| - 1] == old(loopStack[..|loopStack| - 1])
    {
      var top := loopStack[|loopStack| - 1];
      loopStack := loopStack[..|loopStack| - 1] + [(top.0, top.1 + [n])];
    }

    method ExecPushed(n: Node, ghost trees: seq<Ast>, ghost below: set<Node>, ghost depth: nat, ghost outer: seq<Node>)
      returns (ghost fixed: seq<Ast>)
      requires AreKids(n.kids, trees, below) && n !in below && At(true, depth + 1, below)
      requires AllPlaced(trees, true, depth + 1) && ActiveSwitches() == outer + [n]
      requires !n.needsVar && !n.needsDispatcher
      modifies below, this`loopStack, ActiveSwitches()`needsVar, ActiveSwitches()`needsDispatcher
      ensures loopStack == old(loopStack) && AreKids(n.kids, fixed, below)
      ensures forall j :: 0 <= j < |trees| ==> fixed[j] == Fix(trees[j], true, depth + 1)
      ensures Marked(outer, SomeBreaks(trees))
      ensures n.needsDispatcher == SomeBreaks(trees) && n.needsVar == (n.needsDispatcher && outer == [])
      decreases below, 6
    {
      Appended(outer, n);
      fixed := ExecKids(n.kids, trees, below, true, depth + 1);
      assert ActiveSwitches() == outer + [n];
    }

    /** The cases are visited with the switch on top of the active ones, if there is a
        loop to break out of. */
    method ExecCases(n: Node, ghost trees: seq<Ast>, ghost below: set<Node>, ghost inLoop: bool, ghost depth: nat)
      returns (ghost fixed: seq<Ast>)
      requires AreKids(n.kids, trees, below) && n !in below && At(inLoop, depth, below + {n})
      requires AllPlaced(trees, inLoop, depth + 1)
      requires !n.needsVar && !n.needsDispatcher
      modifies below, n`needsVar, n`needsDispatcher
      modifies this`loopStack, ActiveSwitches()`needsVar, ActiveSwitches()`needsDispatcher
      ensures loopStack == old(loopStack) && AreKids(n.kids, fixed, below)
      ensures forall j :: 0 <= j < |trees| ==> fixed[j] == Fix(trees[j], inLoop, depth + 1)
      ensures Marked(ActiveSwitches(), SomeBreaks(trees))
      ensures n.needsDispatcher == (inLoop && SomeBreaks(trees)) && n.needsVar == (n.needsDispatcher && depth == 0)
      decreases below, 8
    {
      if loopStack != [] {
        fixed := ExecInLoop(n, trees, below, depth);
      } else {
        fixed := ExecKids(n.kids, trees, below, false, depth + 1);
      }
    }

    method ExecInLoop(n: Node, ghost trees: seq<Ast>, ghost below: set<Node>, ghost depth: nat)
      returns (ghost fixed: seq<Ast>)
      requires AreKids(n.kids, trees, below) && n !in below && At(true, depth, below + {n})
      requires AllPlaced(trees, true, depth + 1) && !n.needsVar && !n.needsDispatcher
      modifies below, n`needsVar, n`needsDispatcher
      modifies this`loopStack, ActiveSwitches()`needsVar, ActiveSwitches()`needsDispatcher
      ensures loopStack == old(loopStack) && AreKids(n.kids, fixed, below)
      ensures forall j :: 0 <= j < |trees| ==> fixed[j] == Fix(trees[j], true, depth + 1)
      ensures Marked(ActiveSwitches(), SomeBreaks(trees))
      ensures n.needsDispatcher == SomeBreaks(trees) && n.needsVar == (n.needsDispatcher && depth == 0)
      decreases below, 7
    {
      var top := loopStack[|loopStack| - 1];
      PushSwitch(n, below + {n}, depth);
      fixed := ExecPushed(n, trees, below, depth, top.1);
      loopStack := loopStack[..|loopStack| - 1] + [top];
    }
  }

  lemma {:induction false} Appended(outer: seq<Node>, n: Node)
    ensures forall i :: 0 <= i < |outer| ==> (outer + [n])[i] == outer[i]
    ensures (outer + [n])[|outer|] == n && n in outer + [n] && forall s :: s in outer ==> s in outer + [n]
  {
  }

  lemma {:induction false} NothingToFix(inLoop: bool, depth: nat)
    ensures Fix(Null, inLoop, depth) == Null && !BreaksLoop(Null)
  {
  }

  lemma {:induction false} LoopIsFixed(kind: LoopKind, f: Flags, start: seq<Ast>, trees: seq<Ast>, inLoop: bool,
                                       depth: nat)
    requires |start| == |trees| == 1 && trees[0] == Fix(start[0], true, 0)
    ensures Build(ScsShape(kind), f, trees) == Fix(Build(ScsShape(kind), f, start), inLoop, depth)
  {
  }

  predicate AllPlaced(trees: seq<Ast>, inLoop: bool, depth: nat) {
    forall j :: 0 <= j < |trees| ==> Placed(trees[j], inLoop, depth) && Unflagged(trees[j])
  }

  predicate FixedUpTo(fixed: seq<Ast>, trees: seq<Ast>, i: nat, inLoop: bool, depth: nat) {
    && |fixed| == |trees| && i <= |trees|
    && (forall j :: 0 <= j < i ==> fixed[j] == Fix(trees[j], inLoop, depth))
    && (forall j :: i <= j < |trees| ==> fixed[j] == trees[j])
  }

  lemma {:induction false} OneMoreFixed(fixed: seq<Ast>, trees: seq<Ast>, i: nat, inLoop: bool, depth: nat)
    requires i < |trees| && FixedUpTo(fixed, trees, i, inLoop, depth)
    ensures fixed[i] == trees[i] && FixedUpTo(fixed[i := Fix(fixed[i], inLoop, depth)], trees, i + 1, inLoop, depth)
  {
  }

  lemma {:induction false} OneMoreBreaks(trees: seq<Ast>, i: nat)
    requires i < |trees|
    ensures SomeBreaks(trees[..i + 1]) == (SomeBreaks(trees[..i]) || BreaksLoop(trees[i]))
  {
    if SomeBreaks(trees[..i]) {
      var j :| 0 <= j < i && BreaksLoop(trees[..i][j]);
      assert trees[..i + 1][j] == trees[j];
    }
    assert trees[..i + 1][i] == trees[i];
    if SomeBreaks(trees[..i + 1]) && !BreaksLoop(trees[i]) {
      var j :| 0 <= j < i + 1 && BreaksLoop(trees[..i + 1][j]);
      assert trees[..i][j] == trees[j];
    }
  }
}

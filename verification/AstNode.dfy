/** The GHAST as linked nodes that the passes change in place. */
module AstNode {
  import opened Ghast

  /** What a node holds besides its children and the flags of the break fixer; a
      switch lists the labels of its cases in the order of its children. */
  datatype Shape =
    | CodeShape(bb: Block, end: BlockEnd, implicitReturn: bool)
    | IfShape(cond: Condition)
    | ScsShape(kind: LoopKind)
    | SeqShape
    | SwitchShape(on: Scrutinee, labels: seq<seq<nat>>)
    | SwitchBreakShape
    | SetShape(value: nat)
    | ContinueShape(computation: Computation, implicit: bool)
    | BreakShape

  /** `fromSwitch` belongs to breaks, the other two to switches. */
  datatype Flags = Flags(fromSwitch: bool, needsVar: bool, needsDispatcher: bool)

  predicate Fits(s: Shape, n: nat) {
    match s
    case IfShape(_) => n == 2
    case ScsShape(_) => n == 1
    case SeqShape => true
    case SwitchShape(_, labels) => n == |labels|
    case _ => n == 0
  }

  function CasesOf(labels: seq<seq<nat>>, trees: seq<Ast>): (r: seq<Case>)
    requires |labels| == |trees|
    ensures |r| == |labels| && forall i :: 0 <= i < |r| ==> r[i] == Case(labels[i], trees[i])
  {
    if labels == [] then [] else [Case(labels[0], trees[0])] + CasesOf(labels[1..], trees[1..])
  }

  /** The tree of a node with the given trees below it. */
  function Build(s: Shape, f: Flags, trees: seq<Ast>): (a: Ast)
    requires Fits(s, |trees|)
    ensures !a.Null?
  {
    match s
    case CodeShape(bb, end, implicitReturn) => Code(bb, end, implicitReturn)
    case IfShape(cond) => If(cond, trees[0], trees[1])
    case ScsShape(kind) => Scs(kind, trees[0])
    case SeqShape => Seq(trees)
    case SwitchShape(on, labels) => Switch(on, CasesOf(labels, trees), f.needsVar, f.needsDispatcher)
    case SwitchBreakShape => SwitchBreak
    case SetShape(value) => Set(value)
    case ContinueShape(computation, implicit) => Continue(computation, implicit)
    case BreakShape => Break(f.fromSwitch)
  }

  class Node {
    var shape: Shape
    var fromSwitch: bool
    var needsVar: bool
    var needsDispatcher: bool
    /** The branches, the body, the elements or the bodies of the cases. */
    var kids: seq<Node?>
    ghost var repr: set<Node>
    ghost var trees: seq<Ast>

    constructor (shape: Shape, kids: seq<Node?>, ghost trees: seq<Ast>, ghost below: set<Node>)
      requires Fits(shape, |kids|) && AreKids(kids, trees, below)
      ensures this.shape == shape && this.kids == kids && !fromSwitch && !needsVar && !needsDispatcher
      ensures Valid() && this !in below && repr == {this} + below && this.trees == trees
    {
      this.shape, this.kids := shape, kids;
      fromSwitch, needsVar, needsDispatcher := false, false, false;
      repr, this.trees := {this} + below, trees;
    }

    ghost function AllFlags(): Flags
      reads this
    {
      Flags(fromSwitch, needsVar, needsDispatcher)
    }

    /** The children are valid subtrees that share no nodes. */
    ghost predicate Valid()
      reads this, repr
      decreases repr, 1
    {
      && this in repr && Fits(shape, |kids|) && |trees| == |kids|
      && (forall i :: 0 <= i < |kids| && kids[i] != null ==>
            kids[i] in repr && kids[i].repr <= repr && this !in kids[i].repr && kids[i].Valid())
      && (forall i, j :: 0 <= i < j < |kids| && kids[i] != null && kids[j] != null ==> kids[i].repr !! kids[j].repr)
      && (forall i :: 0 <= i < |kids| ==> trees[i] == if kids[i] == null then Null else kids[i].Tree())
    }

    ghost function Tree(): (a: Ast)
      reads this
      ensures !a.Null?
    {
      if Fits(shape, |trees|) then Build(shape, AllFlags(), trees) else SwitchBreak
    }

    /** Recomputes the ghost fields after the children have changed. */
    ghost method Refresh(trees: seq<Ast>, below: set<Node>)
      requires Fits(shape, |kids|) && AreKids(kids, trees, below) && this !in below
      modifies this`repr, this`trees
      ensures Valid() && repr == {this} + below && this.trees == trees
    {
      repr, this.trees := {this} + below, trees;
    }
  }

  ghost function TreeOf(n: Node?): Ast
    reads n
  {
    if n == null then Null else n.Tree()
  }

  /** Valid subtrees that share no nodes, made of nodes in `below`. */
  ghost predicate AreKids(kids: seq<Node?>, trees: seq<Ast>, below: set<Node>)
    reads (set k | k in kids && k != null), below
  {
    && |trees| == |kids|
    && (forall i :: 0 <= i < |kids| && kids[i] != null ==>
          kids[i] in below && kids[i].repr <= below && kids[i].Valid())
    && (forall i, j :: 0 <= i < j < |kids| && kids[i] != null && kids[j] != null ==> kids[i].repr !! kids[j].repr)
    && (forall i :: 0 <= i < |kids| ==> trees[i] == TreeOf(kids[i]))
  }

  /** The same, for all children but the one at index `i`, which owns `mine`. */
  ghost predicate Others(kids: seq<Node?>, i: nat, trees: seq<Ast>, below: set<Node>, mine: set<Node>)
    reads (set k | k in kids && k != null), below
  {
    && |trees| == |kids| && i < |kids|
    && (forall j :: 0 <= j < |kids| && j != i && kids[j] != null ==>
          kids[j] in below && kids[j].repr <= below && kids[j].Valid() && kids[j].repr !! mine)
    && (forall j, m :: 0 <= j < m < |kids| && j != i && m != i && kids[j] != null && kids[m] != null ==>
          kids[j].repr !! kids[m].repr)
    && (forall j :: 0 <= j < |kids| && j != i ==> trees[j] == TreeOf(kids[j]))
  }

  lemma {:induction false} KidAndOthers(kids: seq<Node?>, i: nat, trees: seq<Ast>, below: set<Node>)
    requires i < |kids| && AreKids(kids, trees, below) && kids[i] != null
    ensures Others(kids, i, trees, below, kids[i].repr) && kids[i].Valid() && kids[i].repr <= below
    ensures kids[i].Tree() == trees[i]
  {
  }

  /** Another node takes the place of the child. */
  lemma {:induction false} OthersAndNew(kids: seq<Node?>, i: nat, r: Node, trees: seq<Ast>, below: set<Node>,
                                        mine: set<Node>)
    requires Others(kids, i, trees, below, mine) && r.Valid() && (r.repr - mine) !! below
    ensures AreKids(kids[i := r], trees[i := r.Tree()], below + r.repr)
  {
  }

  /** Nothing is left of the child. */
  lemma {:induction false} OthersAndNone(kids: seq<Node?>, i: nat, trees: seq<Ast>, below: set<Node>, mine: set<Node>)
    requires Others(kids, i, trees, below, mine)
    ensures AreKids(kids[i := null], trees[i := Null], below)
  {
  }

  lemma {:induction false} OthersAndKid(kids: seq<Node?>, i: nat, trees: seq<Ast>, below: set<Node>, mine: set<Node>)
    requires Others(kids, i, trees, below, mine) && kids[i] != null && kids[i].Valid()
    requires (kids[i].repr - mine) !! below
    ensures AreKids(kids, trees[i := kids[i].Tree()], below + kids[i].repr)
  {
  }
}

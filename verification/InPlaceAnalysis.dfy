/** The fallthrough analysis and the weights of nodes, with the maps they fill while they
    walk over the linked nodes. */
module InPlaceAnalysis {
  import opened Ghast
  import opened FallThrough
  import opened AstNode

  type Scopes = map<Node, ScopeType>

  type Weights = map<Node, nat>

  /** The map holds the scope type of every node of the subtree. */
  ghost predicate Knows(scopes: Scopes, n: Node)
    requires n.Valid()
    reads n, n.repr
    decreases n.repr
  {
    && n in scopes && scopes[n] == ScopeOf(n.Tree())
    && (forall i :: 0 <= i < |n.kids| && n.kids[i] != null ==> Knows(scopes, n.kids[i]))
  }

  /** The map holds the weights of all nodes below `n`. */
  ghost predicate WeighsBelow(weights: Weights, n: Node)
    requires n.Valid()
    reads n, n.repr
    decreases n.repr
  {
    forall i :: 0 <= i < |n.kids| && n.kids[i] != null ==>
      n.kids[i] in weights && weights[n.kids[i]] == Weight(n.kids[i].Tree()) && WeighsBelow(weights, n.kids[i])
  }

  /** What an entry promises: a node classified other than FallThrough never completes
      normally. */
  ghost predicate SoundEntry(scopes: Scopes, n: Node)
    reads n
  {
    n in scopes && !scopes[n].FallsThrough? ==> forall w: World :: NeverFalls(w, n.Tree())
  }

  /** The entries of all nodes of the subtree are sound. */
  ghost predicate AllSound(scopes: Scopes, n: Node)
    requires n.Valid()
    reads n, n.repr
    decreases n.repr
  {
    SoundEntry(scopes, n) && forall i :: 0 <= i < |n.kids| && n.kids[i] != null ==> AllSound(scopes, n.kids[i])
  }

  /** `m` is a node of the subtree. */
  ghost predicate Under(m: Node, n: Node)
    requires n.Valid()
    reads n, n.repr
    decreases n.repr
  {
    m == n || exists i :: 0 <= i < |n.kids| && n.kids[i] != null && Under(m, n.kids[i])
  }

  lemma {:induction false} SoundUnder(scopes: Scopes, n: Node, m: Node)
    requires n.Valid() && AllSound(scopes, n) && Under(m, n)
    ensures SoundEntry(scopes, m)
    decreases n.repr
  {
    if m != n {
      var i :| 0 <= i < |n.kids| && n.kids[i] != null && Under(m, n.kids[i]);
      SoundUnder(scopes, n.kids[i], m);
    }
  }

  lemma {:induction false} KidsAnalysable(s: Shape, f: Flags, trees: seq<Ast>)
    requires Fits(s, |trees|) && Analysable(Build(s, f, trees))
    ensures forall i :: 0 <= i < |trees| ==> Analysable(trees[i])
  {
    if s.SwitchShape? {
      var cases := CasesOf(s.labels, trees);
      forall i | 0 <= i < |trees| ensures Analysable(trees[i]) { assert cases[i].body == trees[i]; }
    }
  }

  /** The analysis is right about every node. */
  lemma {:induction false} KnownIsSound(scopes: Scopes, n: Node)
    requires n.Valid() && Knows(scopes, n) && Analysable(n.Tree())
    ensures AllSound(scopes, n)
    decreases n.repr
  {
    KidsAnalysable(n.shape, n.AllFlags(), n.trees);
    forall i | 0 <= i < |n.kids| && n.kids[i] != null ensures AllSound(scopes, n.kids[i]) {
      KnownIsSound(scopes, n.kids[i]);
    }
    if !scopes[n].FallsThrough? {
      forall w: World ensures NeverFalls(w, n.Tree()) { NonFallingNeverFalls(w, n.Tree()); }
    }
  }

  ghost predicate SameOn<T>(a: map<Node, T>, b: map<Node, T>, nodes: set<Node>) {
    forall n :: n in nodes && n in a ==> n in b && b[n] == a[n]
  }

  ghost predicate OnlyChanges<T(!new)>(a: map<Node, T>, b: map<Node, T>, nodes: set<Node>) {
    forall n :: n in a.Keys + b.Keys && n !in nodes ==> n in a && n in b && b[n] == a[n]
  }

  lemma {:induction false} KnowsFrame(a: Scopes, b: Scopes, n: Node)
    requires n.Valid() && Knows(a, n) && SameOn(a, b, n.repr)
    ensures Knows(b, n)
    decreases n.repr
  {
    forall i | 0 <= i < |n.kids| && n.kids[i] != null ensures Knows(b, n.kids[i]) { KnowsFrame(a, b, n.kids[i]); }
  }

  lemma {:induction false} WeighsFrame(a: Weights, b: Weights, n: Node)
    requires n.Valid() && WeighsBelow(a, n) && SameOn(a, b, n.repr)
    ensures WeighsBelow(b, n)
    decreases n.repr
  {
    forall i | 0 <= i < |n.kids| && n.kids[i] != null
      ensures n.kids[i] in b && b[n.kids[i]] == Weight(n.kids[i].Tree()) && WeighsBelow(b, n.kids[i])
    {
      WeighsFrame(a, b, n.kids[i]);
    }
  }

  // ----- The analysis -----

  /** The scope type of the last case combined with those before. */
  function CombineTrees(trees: seq<Ast>): ScopeType {
    if trees == [] then FallsThrough
    else if |trees| == 1 then ScopeOf(trees[0])
    else CombineTypes(CombineTrees(trees[..|trees| - 1]), ScopeOf(trees[|trees| - 1]))
  }

  lemma {:induction false} CombineIsOfCases(labels: seq<seq<nat>>, trees: seq<Ast>)
    requires |labels| == |trees| && trees != []
    ensures CombineCases(CasesOf(labels, trees)) == CombineTrees(trees)
    decreases |trees|
  {
    var cases := CasesOf(labels, trees);
    if |trees| > 1 {
      var n := |trees| - 1;
      assert cases[..n] == CasesOf(labels[..n], trees[..n]);
      CombineIsOfCases(labels[..n], trees[..n]);
    }
  }

  class FallThroughAnalysis {
    var resultMap: Scopes

    constructor ()
      ensures resultMap == map[]
    {
      resultMap := map[];
    }

    /** Computes and records the type of a node. */
    method Record(n: Node) returns (t: ScopeType)
      requires n.Valid()
      modifies this
      ensures t == ScopeOf(n.Tree()) && Knows(resultMap, n) && OnlyChanges(old(resultMap), resultMap, n.repr)
      decreases n.repr, 1, 1
    {
      t := Impl(n);
      ghost var before := resultMap;
      resultMap := resultMap[n := t];
      KidsKnown(before, resultMap, n);
    }

    /** The type of a node; the types of the nodes below are recorded. */
    method Impl(n: Node) returns (t: ScopeType)
      requires n.Valid()
      modifies this
      ensures t == ScopeOf(n.Tree())
      ensures forall i :: 0 <= i < |n.kids| && n.kids[i] != null ==> Knows(resultMap, n.kids[i])
      ensures OnlyChanges(old(resultMap), resultMap, n.repr)
      decreases n.repr, 1, 0
    {
      var types := VisitKids(n.kids, n.trees, n.repr - {n});
      t := TypeOf(n, types);
      if n.shape.CodeShape? && !n.shape.end.Jumps? {
        resultMap := resultMap[n := t];
      }
    }

    /** The types of the children, with FallThrough for a missing branch. */
    method VisitKids(kids: seq<Node?>, ghost trees: seq<Ast>, ghost below: set<Node>) returns (types: seq<ScopeType>)
      requires AreKids(kids, trees, below)
      modifies this
      ensures |types| == |kids| && forall i :: 0 <= i < |kids| ==> types[i] == ScopeOf(trees[i])
      ensures forall i :: 0 <= i < |kids| && kids[i] != null ==> Knows(resultMap, kids[i])
      ensures OnlyChanges(old(resultMap), resultMap, below)
      decreases below, 3
    {
      types := [];
      var i := 0;
      while i < |kids|
        invariant 0 <= i <= |kids| && |types| == i
        invariant forall j :: 0 <= j < i ==> types[j] == ScopeOf(trees[j])
        invariant forall j :: 0 <= j < i && kids[j] != null ==> Knows(resultMap, kids[j])
        invariant OnlyChanges(old(resultMap), resultMap, below)
      {
        var t := VisitKid(kids, i, trees, below);
        types := types + [t];
        i := i + 1;
      }
    }

    method VisitKid(kids: seq<Node?>, i: nat, ghost trees: seq<Ast>, ghost below: set<Node>) returns (t: ScopeType)
      requires i < |kids| && AreKids(kids, trees, below)
      requires forall j :: 0 <= j < i && kids[j] != null ==> Knows(resultMap, kids[j])
      modifies this
      ensures t == ScopeOf(trees[i])
      ensures forall j :: 0 <= j <= i && kids[j] != null ==> Knows(resultMap, kids[j])
      ensures OnlyChanges(old(resultMap), resultMap, below)
      decreases below, 2
    {
      if kids[i] == null {
        return FallsThrough;
      }
      ghost var before := resultMap;
      t := Record(kids[i]);
      OthersStayKnown(before, resultMap, kids, i, trees, below);
    }

    /** The type of a node from those of its children. */
    method TypeOf(n: Node, types: seq<ScopeType>) returns (t: ScopeType)
      requires n.Valid() && |types| == |n.kids| && forall i :: 0 <= i < |types| ==> types[i] == ScopeOf(n.trees[i])
      ensures t == ScopeOf(n.Tree())
    {
      match n.shape
      case SeqShape => return if |types| == 0 then FallsThrough else types[|types| - 1];
      case IfShape(_) => return CombineTypes(types[0], types[1]);
      case ScsShape(_) => return FallsThrough;
      case SwitchShape(_, labels) => t := TypeOfSwitch(n, types);
      case CodeShape(_, end, _) =>
        return match end case Jumps => FallsThrough case Returns => Return case CallsNoReturn => CallNoReturn;
      case ContinueShape(_, _) => return ContinueScope;
      case BreakShape => return LoopBreak;
      case _ => return FallsThrough;
    }

    method TypeOfSwitch(n: Node, types: seq<ScopeType>) returns (t: ScopeType)
      requires n.Valid() && n.shape.SwitchShape?
      requires |types| == |n.kids| && forall i :: 0 <= i < |types| ==> types[i] == ScopeOf(n.trees[i])
      ensures t == ScopeOf(n.Tree())
    {
      var all := CombineAll(types, n.trees);
      SwitchScope(n.shape, n.AllFlags(), n.trees);
      t := if exists i :: 0 <= i < |n.shape.labels| && n.shape.labels[i] == [] then all else FallsThrough;
    }

    method CombineAll(types: seq<ScopeType>, ghost trees: seq<Ast>) returns (all: ScopeType)
      requires |types| == |trees| && forall i :: 0 <= i < |types| ==> types[i] == ScopeOf(trees[i])
      ensures trees != [] ==> all == CombineTrees(trees)
    {
      all := FallsThrough;
      for i := 0 to |types|
        invariant i > 0 ==> all == CombineTrees(trees[..i])
      {
        all := if i == 0 then types[0] else CombineTypes(all, types[i]);
        assert trees[..i + 1][..i] == trees[..i];
      }
      assert trees[..|types|] == trees;
    }
  }

  lemma {:induction false} SwitchScope(s: Shape, f: Flags, trees: seq<Ast>)
    requires s.SwitchShape? && Fits(s, |trees|)
    ensures ScopeOf(Build(s, f, trees))
         == if exists i :: 0 <= i < |s.labels| && s.labels[i] == [] then CombineTrees(trees) else FallsThrough
  {
    DefaultIs(s.labels, trees);
    if trees != [] { CombineIsOfCases(s.labels, trees); }
  }

  /** Entries for the nodes of one child do not concern the others. */
  lemma {:induction false} OthersStayKnown(a: Scopes, b: Scopes, kids: seq<Node?>, i: nat, trees: seq<Ast>,
                                           below: set<Node>)
    requires AreKids(kids, trees, below) && i < |kids| && kids[i] != null && OnlyChanges(a, b, kids[i].repr)
    ensures forall j :: 0 <= j < |kids| && j != i && kids[j] != null && Knows(a, kids[j]) ==> Knows(b, kids[j])
  {
    forall j | 0 <= j < |kids| && j != i && kids[j] != null && Knows(a, kids[j]) ensures Knows(b, kids[j]) {
      assert kids[j].repr !! kids[i].repr;
      KnowsFrame(a, b, kids[j]);
    }
  }

  lemma {:induction false} OthersStayWeighed(a: Weights, b: Weights, kids: seq<Node?>, i: nat, trees: seq<Ast>,
                                             below: set<Node>)
    requires AreKids(kids, trees, below) && i < |kids| && kids[i] != null && OnlyChanges(a, b, kids[i].repr)
    ensures forall j :: 0 <= j < |kids| && j != i && kids[j] != null && Weighs(a, kids[j]) ==> Weighs(b, kids[j])
  {
    forall j | 0 <= j < |kids| && j != i && kids[j] != null && Weighs(a, kids[j]) ensures Weighs(b, kids[j]) {
      assert kids[j].repr !! kids[i].repr;
      WeighsFrame(a, b, kids[j]);
    }
  }

  lemma {:induction false} DefaultIs(labels: seq<seq<nat>>, trees: seq<Ast>)
    requires |labels| == |trees|
    ensures DefaultCase(CasesOf(labels, trees)) < |labels| <==> exists i :: 0 <= i < |labels| && labels[i] == []
  {
    var cases := CasesOf(labels, trees);
    if i :| 0 <= i < |labels| && labels[i] == [] { assert cases[i].labels == []; }
  }

  lemma {:induction false} KidsKnown(a: Scopes, b: Scopes, n: Node)
    requires n.Valid() && forall i :: 0 <= i < |n.kids| && n.kids[i] != null ==> Knows(a, n.kids[i])
    requires b == a[n := ScopeOf(n.Tree())]
    ensures Knows(b, n)
  {
    forall i | 0 <= i < |n.kids| && n.kids[i] != null ensures Knows(b, n.kids[i]) { KnowsFrame(a, b, n.kids[i]); }
  }

  // ----- The weights -----

  lemma {:induction false} WeightsOf(s: Shape, f: Flags, trees: seq<Ast>)
    requires Fits(s, |trees|)
    ensures Weight(Build(s, f, trees)) == OwnWeight(s) + WeightSeq(trees)
  {
    match s
    case IfShape(_) =>
      assert WeightSeq(trees[1..]) == Weight(trees[1]) + WeightSeq(trees[2..]);
    case ScsShape(_) => assert trees[1..] == [];
    case SwitchShape(_, labels) => CasesWeigh(labels, trees);
    case _ =>
  }

  lemma {:induction false} CasesWeigh(labels: seq<seq<nat>>, trees: seq<Ast>)
    requires |labels| == |trees|
    ensures WeightCases(CasesOf(labels, trees)) == WeightSeq(trees)
  {
    if labels != [] { CasesWeigh(labels[1..], trees[1..]); }
  }

  /** The weight of a node besides that of its children. */
  function OwnWeight(s: Shape): nat {
    match s
    case SeqShape => 0
    case CodeShape(bb, _, _) => bb.size
    case ContinueShape(computation, _) => if computation.Computes? then computation.cond.origin.size + 1 else 0
    case _ => 1
  }

  class NodeWeightComputation {
    var weights: Weights

    constructor ()
      ensures weights == map[]
    {
      weights := map[];
    }

    method Compute(n: Node) returns (w: nat)
      requires n.Valid()
      modifies this
      ensures w == Weight(n.Tree()) && WeighsBelow(weights, n) && OnlyChanges(old(weights), weights, n.repr - {n})
      decreases n.repr, 1
    {
      WeightsOf(n.shape, n.AllFlags(), n.trees);
      var sum := VisitKids(n.kids, n.trees, n.repr - {n});
      w := OwnWeight(n.shape) + sum;
    }

    method VisitKids(kids: seq<Node?>, ghost trees: seq<Ast>, ghost below: set<Node>) returns (sum: nat)
      requires AreKids(kids, trees, below)
      modifies this
      ensures sum == WeightSeq(trees)
      ensures forall i :: 0 <= i < |kids| && kids[i] != null ==> Weighs(weights, kids[i])
      ensures OnlyChanges(old(weights), weights, below)
      decreases below, 3
    {
      sum := 0;
      var i := 0;
      assert trees[..0] == [];
      while i < |kids|
        invariant 0 <= i <= |kids| && sum == WeightSeq(trees[..i])
        invariant forall j :: 0 <= j < i && kids[j] != null ==> Weighs(weights, kids[j])
        invariant OnlyChanges(old(weights), weights, below)
      {
        var w := VisitKid(kids, i, trees, below);
        WeightSnoc(trees[..i], trees[i]);
        assert trees[..i + 1] == trees[..i] + [trees[i]];
        sum := sum + w;
        i := i + 1;
      }
      assert trees[..i] == trees;
    }

    method VisitKid(kids: seq<Node?>, i: nat, ghost trees: seq<Ast>, ghost below: set<Node>) returns (w: nat)
      requires i < |kids| && AreKids(kids, trees, below)
      requires forall j :: 0 <= j < i && kids[j] != null ==> Weighs(weights, kids[j])
      modifies this
      ensures w == Weight(trees[i])
      ensures forall j :: 0 <= j <= i && kids[j] != null ==> Weighs(weights, kids[j])
      ensures OnlyChanges(old(weights), weights, below)
      decreases below, 2
    {
      if kids[i] == null {
        return 0;
      }
      ghost var before := weights;
      w := Compute(kids[i]);
      ghost var middle := weights;
      weights := weights[kids[i] := w];
      BelowIsWeighed(middle, weights, kids[i]);
      OthersStayWeighed(before, weights, kids, i, trees, below);
    }
  }

  /** The map of the scope types of all nodes. */
  method ComputeFallThroughScope(root: Node) returns (scopes: Scopes)
    requires root.Valid()
    ensures Knows(scopes, root) && (Analysable(root.Tree()) ==> AllSound(scopes, root))
  {
    var analysis := new FallThroughAnalysis();
    var _ := analysis.Record(root);
    scopes := analysis.resultMap;
    if Analysable(root.Tree()) { KnownIsSound(scopes, root); }
  }

  ghost predicate Weighs(weights: Weights, n: Node)
    requires n.Valid()
    reads n, n.repr
  {
    n in weights && weights[n] == Weight(n.Tree()) && WeighsBelow(weights, n)
  }

  lemma {:induction false} BelowIsWeighed(a: Weights, b: Weights, n: Node)
    requires n.Valid() && WeighsBelow(a, n) && b == a[n := Weight(n.Tree())]
    ensures Weighs(b, n)
  {
    forall i | 0 <= i < |n.kids| && n.kids[i] != null
      ensures n.kids[i] in b && b[n.kids[i]] == Weight(n.kids[i].Tree()) && WeighsBelow(b, n.kids[i])
    {
      WeighsFrame(a, b, n.kids[i]);
    }
  }

  lemma {:induction false} WeightSnoc(s: seq<Ast>, a: Ast)
    ensures WeightSeq(s + [a]) == WeightSeq(s) + Weight(a)
  {
    if s == [] {
      assert WeightSeq([a][1..]) == 0;
    } else {
      assert (s + [a])[0] == s[0] && (s + [a])[1..] == s[1..] + [a];
      WeightSnoc(s[1..], a);
    }
  }
}

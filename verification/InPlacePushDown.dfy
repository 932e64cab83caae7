/** Pushing down scopes that end in non-local control flow, on the linked nodes: the
    `then` of an `if` trades places with the nodes behind the `if`, when those end in a
    call that does not return. */
module InPlacePushDown {
  import opened Ghast
  import opened FallThrough
  import opened Canonicalize
  import opened AstNode
  import opened InPlaceAnalysis
  import opened InPlaceCanonicalize

  function PushDownTrees(trees: seq<Ast>): (r: seq<Ast>)
    ensures |r| == |trees| && forall j :: 0 <= j < |trees| ==> r[j] == PushDown(trees[j])
  {
    if trees == [] then [] else [PushDown(trees[0])] + PushDownTrees(trees[1..])
  }

  /** What becomes of the trees below a node. */
  function PushedTrees(s: Shape, trees: seq<Ast>): (r: seq<Ast>)
    ensures !s.SeqShape? ==> |r| == |trees|
  {
    if s.SeqShape? then Swapped(trees, PushDownTrees(trees)) else PushDownTrees(trees)
  }

  lemma {:induction false} PushDownBuild(s: Shape, f: Flags, trees: seq<Ast>)
    requires Fits(s, |trees|)
    ensures PushDown(Build(s, f, trees)) == Build(s, f, PushedTrees(s, trees))
  {
    match s
    case SeqShape => PushDownSeqIs(trees);
    case SwitchShape(_, labels) => PushDownCasesAre(labels, trees);
    case _ =>
  }

  lemma {:induction false} PushDownSeqIs(trees: seq<Ast>)
    ensures PushDown(Seq(trees)) == Seq(Swapped(trees, PushDownTrees(trees)))
  {
    assert PushDownTrees(trees) == PushDownSeq(trees);
  }

  lemma {:induction false} PushDownCasesAre(labels: seq<seq<nat>>, trees: seq<Ast>)
    requires |labels| == |trees|
    ensures CasesOf(labels, PushDownTrees(trees)) == PushDownCases(CasesOf(labels, trees))
  {
  }

  /** A node is still the kind of node it was, `if`s have the same branches, and the
      map knows the node and its `then` as what they were. */
  ghost predicate Recalls(scopes: Scopes, k: Node?, t: Ast)
    reads k
  {
    && (k == null <==> t.Null?)
    && (k != null ==>
          && k in scopes && scopes[k] == ScopeOf(t) && (k.shape.IfShape? <==> t.If?)
          && (t.If? ==> |k.kids| == 2 && (k.kids[0] == null <==> t.thn.Null?) && (k.kids[1] == null <==> t.els.Null?)
                        && (k.kids[0] != null ==> k.kids[0] in scopes && scopes[k.kids[0]] == ScopeOf(t.thn))))
  }

  lemma {:induction false} KnownIsRecalled(scopes: Scopes, k: Node)
    requires k.Valid() && Knows(scopes, k)
    ensures Recalls(scopes, k, k.Tree())
  {
  }

  ghost predicate AllRecalled(scopes: Scopes, kids: seq<Node?>, start: seq<Ast>)
    requires |kids| == |start|
    reads set k | k in kids && k != null
  {
    forall j :: 0 <= j < |kids| ==> Recalls(scopes, kids[j], start[j])
  }

  ghost predicate AllKnown(scopes: Scopes, kids: seq<Node?>, top: set<Node>)
    reads (set k | k in kids && k != null), top
  {
    forall j :: 0 <= j < |kids| && kids[j] != null ==>
      kids[j] in top && kids[j].repr <= top && kids[j].Valid() && Knows(scopes, kids[j])
  }

  lemma {:induction false} NextIsKnown(scopes: Scopes, kids: seq<Node?>, top: set<Node>)
    requires kids != [] && AllKnown(scopes, kids, top)
    ensures AllKnown(scopes, kids[1..], top)
    ensures kids[0] != null ==> kids[0].Valid() && kids[0].repr <= top && Knows(scopes, kids[0])
  {
  }

  lemma {:induction false} KidsAreKnown(scopes: Scopes, n: Node)
    requires n.Valid() && Knows(scopes, n)
    ensures AllKnown(scopes, n.kids, n.repr - {n}) && AllRecalled(scopes, n.kids, n.trees)
  {
    forall j | 0 <= j < |n.kids| ensures Recalls(scopes, n.kids[j], n.trees[j]) {
      if n.kids[j] != null { KnownIsRecalled(scopes, n.kids[j]); }
    }
  }

  /** The entries below the children before position `i` are sound. */
  ghost predicate SoundUpTo(scopes: Scopes, kids: seq<Node?>, i: nat, below: set<Node>)
    reads (set k | k in kids && k != null), below
  {
    forall j :: 0 <= j < |kids| && j < i && kids[j] != null ==>
      kids[j] in below && kids[j].repr <= below && kids[j].Valid() && AllSound(scopes, kids[j])
  }

  lemma {:induction false} OneMoreSound(scopes: Scopes, kids: seq<Node?>, i: nat, below: set<Node>, below2: set<Node>)
    requires SoundUpTo(scopes, kids, i, below) && i < |kids| && below <= below2
    requires kids[i] != null ==>
               kids[i] in below2 && kids[i].repr <= below2 && kids[i].Valid() && AllSound(scopes, kids[i])
    ensures SoundUpTo(scopes, kids, i + 1, below2)
  {
  }

  /** The shape of a node, and the branches of an `if`, are left alone. */
  twostate predicate SameLinks(kids: seq<Node?>)
    reads set k | k in kids && k != null
  {
    forall j :: 0 <= j < |kids| && kids[j] != null ==>
      kids[j].shape == old(kids[j].shape) && (!kids[j].shape.SeqShape? ==> kids[j].kids == old(kids[j].kids))
  }

  method PushDownFirst(scopes: Scopes, kids: seq<Node?>, i: nat, rest: seq<Node?>, ghost trees: seq<Ast>,
                       ghost below: set<Node>, ghost top: set<Node>)
    requires i < |kids| && kids[i] != null && kids[i].Valid() && kids[i].repr <= top && Knows(scopes, kids[i])
    requires Others(kids, i, trees, below, kids[i].repr) && AllKnown(scopes, rest, top)
    requires forall j :: 0 <= j < |rest| && rest[j] != null ==> rest[j].repr !! kids[i].repr
    modifies kids[i].repr
    ensures kids[i].Valid() && fresh(kids[i].repr - old(kids[i].repr))
    ensures kids[i].Tree() == PushDown(old(kids[i].Tree()))
    ensures kids[i].shape == old(kids[i].shape) && (!kids[i].shape.SeqShape? ==> kids[i].kids == old(kids[i].kids))
    ensures Others(kids, i, trees, below, old(kids[i].repr)) && AllKnown(scopes, rest, top)
    ensures old(Analysable(kids[i].Tree())) ==> AllSound(scopes, kids[i])
    ensures old(SoundUpTo(scopes, kids, i, below)) ==> SoundUpTo(scopes, kids, i, below)
    decreases top, 4
  {
    PushDownNode(scopes, kids[i]);
  }

  method PushDownKid(scopes: Scopes, kids: seq<Node?>, i: nat, rest: seq<Node?>, ghost trees: seq<Ast>,
                     ghost below: set<Node>, ghost top: set<Node>, ghost sound: bool)
    returns (ghost below2: set<Node>)
    requires i < |kids| && AreKids(kids, trees, below) && rest == kids[i + 1..] && AllKnown(scopes, rest, top)
    requires kids[i] != null ==> kids[i].repr <= top && Knows(scopes, kids[i])
    requires sound ==> Analysable(trees[i]) && SoundUpTo(scopes, kids, i, below)
    modifies below
    ensures below <= below2 && fresh(below2 - below)
    ensures AreKids(kids, trees[i := PushDown(trees[i])], below2)
    ensures AllKnown(scopes, rest, top) && SameLinks(kids)
    ensures sound ==> SoundUpTo(scopes, kids, i + 1, below2)
    decreases top, 5
  {
    below2 := below;
    if kids[i] != null {
      var k := kids[i];
      ghost var mine := k.repr;
      KidAndOthers(kids, i, trees, below);
      PushDownFirst(scopes, kids, i, rest, trees, below, top);
      OthersAndKid(kids, i, trees, below, mine);
      below2 := below + k.repr;
    }
    if sound { OneMoreSound(scopes, kids, i, below, below2); }
  }

  method PushDownKids(scopes: Scopes, n: Node)
    requires n.Valid() && Knows(scopes, n)
    modifies n.repr
    ensures n.Valid() && fresh(n.repr - old(n.repr)) && n.shape == old(n.shape) && n.AllFlags() == old(n.AllFlags())
    ensures n.kids == old(n.kids) && n.trees == PushDownTrees(old(n.trees)) && SameLinks(n.kids)
    ensures old(Analysable(n.Tree())) ==> SoundUpTo(scopes, n.kids, |n.kids|, n.repr - {n})
    decreases n.repr, 0
  {
    KidsAreKnown(scopes, n);
    ghost var sound := Analysable(n.Tree());
    if sound { KidsAnalysable(n.shape, n.AllFlags(), n.trees); }
    ghost var trees, below := PushDownAll(scopes, n.kids, n.trees, n.repr - {n}, sound);
    Settle(scopes, n, trees, below, sound);
  }

  ghost method Settle(scopes: Scopes, n: Node, trees: seq<Ast>, below: set<Node>, sound: bool)
    requires Fits(n.shape, |n.kids|) && AreKids(n.kids, trees, below) && n !in below
    requires sound ==> SoundUpTo(scopes, n.kids, |n.kids|, below)
    modifies n`repr, n`trees
    ensures n.Valid() && n.repr == {n} + below && n.trees == trees
    ensures sound ==> SoundUpTo(scopes, n.kids, |n.kids|, n.repr - {n})
  {
    n.Refresh(trees, below);
    assert n.repr - {n} == below;
  }

  method PushDownAll(scopes: Scopes, kids: seq<Node?>, ghost start: seq<Ast>, ghost top: set<Node>, ghost sound: bool)
    returns (ghost trees: seq<Ast>, ghost below: set<Node>)
    requires AreKids(kids, start, top) && AllKnown(scopes, kids, top)
    requires sound ==> forall j :: 0 <= j < |start| ==> Analysable(start[j])
    modifies top
    ensures top <= below && fresh(below - top) && AreKids(kids, trees, below) && trees == PushDownTrees(start)
    ensures SameLinks(kids) && (sound ==> SoundUpTo(scopes, kids, |kids|, below))
    decreases top, 7
  {
    below, trees := top, start;
    var i := 0;
    assert kids[0..] == kids;
    while i < |kids|
      invariant 0 <= i <= |kids| && top <= below && fresh(below - top) && SameLinks(kids)
      invariant InProgress(scopes, kids, trees, start, below, top, i, sound)
    {
      trees, below := PushDownNext(scopes, kids, i, trees, start, below, top, sound);
      i := i + 1;
    }
    assert trees == PushDownTrees(start);
  }

  /** The children before position `i` have been visited. */
  ghost predicate InProgress(scopes: Scopes, kids: seq<Node?>, trees: seq<Ast>, start: seq<Ast>, below: set<Node>,
                             top: set<Node>, i: nat, sound: bool)
    reads (set k | k in kids && k != null), below, top
  {
    && i <= |kids| == |start| && PushedUpTo(trees, start, i)
    && AreKids(kids, trees, below) && AllKnown(scopes, kids[i..], top)
    && (sound ==> SoundUpTo(scopes, kids, i, below))
  }

  method PushDownNext(scopes: Scopes, kids: seq<Node?>, i: nat, ghost trees: seq<Ast>, ghost start: seq<Ast>,
                      ghost below: set<Node>, ghost top: set<Node>, ghost sound: bool)
    returns (ghost trees2: seq<Ast>, ghost below2: set<Node>)
    requires i < |kids| && InProgress(scopes, kids, trees, start, below, top, i, sound)
    requires sound ==> forall j :: 0 <= j < |start| ==> Analysable(start[j])
    modifies below
    ensures below <= below2 && fresh(below2 - below)
    ensures InProgress(scopes, kids, trees2, start, below2, top, i + 1, sound) && SameLinks(kids)
    decreases top, 6
  {
    NextIsKnown(scopes, kids[i..], top);
    assert kids[i..][0] == kids[i] && kids[i..][1..] == kids[i + 1..];
    OneMorePushed(trees, start, i);
    below2 := PushDownKid(scopes, kids, i, kids[i + 1..], trees, below, top, sound);
    trees2 := trees[i := PushDown(trees[i])];
  }

  predicate PushedUpTo(trees: seq<Ast>, start: seq<Ast>, i: nat) {
    && |trees| == |start| && i <= |start|
    && (forall j :: 0 <= j < i ==> trees[j] == PushDown(start[j]))
    && (forall j :: i <= j < |start| ==> trees[j] == start[j])
  }

  lemma {:induction false} OneMorePushed(trees: seq<Ast>, start: seq<Ast>, i: nat)
    requires i < |start| && PushedUpTo(trees, start, i)
    ensures trees[i] == start[i] && PushedUpTo(trees[i := PushDown(trees[i])], start, i + 1)
  {
  }

  /** The children have been visited, and the map still tells what they were. */
  method VisitKids(scopes: Scopes, n: Node)
    requires n.Valid() && Knows(scopes, n)
    modifies n.repr
    ensures n.Valid() && fresh(n.repr - old(n.repr)) && n.shape == old(n.shape) && n.AllFlags() == old(n.AllFlags())
    ensures n.kids == old(n.kids) && n.trees == PushDownTrees(old(n.trees)) && AllRecalled(scopes, n.kids, old(n.trees))
    ensures old(Analysable(n.Tree())) ==> SoundUpTo(scopes, n.kids, |n.kids|, n.repr - {n})
    decreases n.repr, 1
  {
    KidsAreKnown(scopes, n);
    ghost var start := n.trees;
    PushDownKids(scopes, n);
    forall j | 0 <= j < |n.kids| ensures Recalls(scopes, n.kids[j], start[j]) {
      assert old(Recalls(scopes, n.kids[j], n.trees[j]));
    }
  }

  method PushDownNode(scopes: Scopes, n: Node)
    requires n.Valid() && Knows(scopes, n)
    modifies n.repr
    ensures n.Valid() && fresh(n.repr - old(n.repr)) && n.shape == old(n.shape)
    ensures n.Tree() == PushDown(old(n.Tree()))
    ensures !n.shape.SeqShape? ==> n.kids == old(n.kids)
    ensures old(Analysable(n.Tree())) ==> AllSound(scopes, n)
    decreases n.repr, 3
  {
    ghost var before := n.Tree();
    PushDownBuild(n.shape, n.AllFlags(), n.trees);
    VisitAndSwap(scopes, n, Analysable(before));
    if Analysable(before) { PushedIsSound(scopes, n, before); }
  }

  method VisitAndSwap(scopes: Scopes, n: Node, ghost sound: bool)
    requires n.Valid() && Knows(scopes, n) && sound == Analysable(n.Tree())
    modifies n.repr
    ensures n.Valid() && fresh(n.repr - old(n.repr)) && n.shape == old(n.shape)
    ensures n.trees == PushedTrees(n.shape, old(n.trees))
    ensures !n.shape.SeqShape? ==> n.AllFlags() == old(n.AllFlags()) && n.kids == old(n.kids)
    ensures sound ==> SoundUpTo(scopes, n.kids, |n.kids|, n.repr - {n})
    decreases n.repr, 2
  {
    ghost var start := n.trees;
    VisitKids(scopes, n);
    if n.shape.SeqShape? {
      var index := SwapScopes(scopes, n, start, sound);
      SwappedIs(start, index);
    }
  }

  lemma {:induction false} PushedIsSound(scopes: Scopes, n: Node, before: Ast)
    requires n.Valid() && Analysable(before) && n.Tree() == PushDown(before) && n in scopes
    requires scopes[n] == ScopeOf(before)
    requires SoundUpTo(scopes, n.kids, |n.kids|, n.repr - {n})
    ensures AllSound(scopes, n)
  {
    if !scopes[n].FallsThrough? {
      forall w: World ensures NeverFalls(w, n.Tree()) {
        PushDownPreserves(w, before);
        PushedNeverFalls(w, before);
      }
    }
  }

  /** The search from the end of a sequence, whose children have been visited. */
  method SwapScopes(scopes: Scopes, n: Node, ghost start: seq<Ast>, ghost sound: bool) returns (index: int)
    requires n.Valid() && n.shape.SeqShape? && |start| == |n.kids| && n.trees == PushDownTrees(start)
    requires AllRecalled(scopes, n.kids, start)
    requires sound ==> SoundUpTo(scopes, n.kids, |n.kids|, n.repr - {n})
    modifies n.repr
    ensures n.Valid() && fresh(n.repr - old(n.repr)) && n.shape == old(n.shape)
    ensures IsSwap(start, index) && n.trees == Traded(PushDownTrees(start), index)
    ensures sound ==> SoundUpTo(scopes, n.kids, |n.kids|, n.repr - {n})
  {
    index := FindSwap(scopes, n.kids, start);
    SwapAt(scopes, n, start, index, sound);
  }

  method SwapAt(scopes: Scopes, n: Node, ghost start: seq<Ast>, index: int, ghost sound: bool)
    requires n.Valid() && n.shape.SeqShape? && |start| == |n.kids| && n.trees == PushDownTrees(start)
    requires AllRecalled(scopes, n.kids, start) && IsSwap(start, index)
    requires sound ==> SoundUpTo(scopes, n.kids, |n.kids|, n.repr - {n})
    modifies n.repr
    ensures n.Valid() && fresh(n.repr - old(n.repr)) && n.shape == old(n.shape)
    ensures n.trees == Traded(PushDownTrees(start), index)
    ensures sound ==> SoundUpTo(scopes, n.kids, |n.kids|, n.repr - {n})
  {
    if index >= 0 {
      CandidateLinks(scopes, n, start, index);
      TradeSoundly(scopes, n, index, sound);
    }
  }

  /** Trading places leaves all entries sound: the `if` was and is classified as
      FallThrough, and the sequence that gathers the nodes behind it has no entry. */
  method TradeSoundly(scopes: Scopes, n: Node, index: nat, ghost sound: bool)
    requires n.Valid() && n.shape.SeqShape? && index < |n.kids| - 1 && MayTrade(n, index)
    requires n.kids[index] in scopes && scopes[n.kids[index]].FallsThrough?
    requires sound ==> SoundUpTo(scopes, n.kids, |n.kids|, n.repr - {n})
    modifies n, n.kids[index]
    ensures n.Valid() && fresh(n.repr - old(n.repr)) && n.shape == old(n.shape)
    ensures n.trees
         == old(n.trees[..index] + [If(n.trees[index].cond, Null, Seq(n.trees[index + 1..])), n.trees[index].thn])
    ensures sound ==> SoundUpTo(scopes, n.kids, |n.kids|, n.repr - {n})
  {
    ghost var all, prev := n.kids, n.kids[index];
    ghost var thn := prev.kids[0];
    ghost var els := TradePlaces(n, index);
    if sound {
      assert SoundNodes(scopes, all[..index]) && SoundNodes(scopes, all[index + 1..]) && thn.Valid()
             && AllSound(scopes, thn);
      TradedIsSound(scopes, n, index, prev, thn, els);
    }
  }

  lemma {:induction false} SoundNode(scopes: Scopes, n: Node)
    requires n.Valid() && (n in scopes ==> scopes[n].FallsThrough?)
    requires forall i :: 0 <= i < |n.kids| && n.kids[i] != null ==> AllSound(scopes, n.kids[i])
    ensures AllSound(scopes, n)
  {
  }

  ghost predicate SoundNodes(scopes: Scopes, kids: seq<Node?>)
    reads set k | k in kids && k != null
    reads set k, x | k in kids && k != null && x in k.repr :: x
  {
    forall j :: 0 <= j < |kids| && kids[j] != null ==> kids[j].Valid() && AllSound(scopes, kids[j])
  }

  lemma {:induction false} TradedIsSound(scopes: Scopes, n: Node, index: nat, prev: Node, thn: Node, els: Node)
    requires n.Valid() && |n.kids| == index + 2 && n.kids[index] == prev && n.kids[index + 1] == thn
    requires prev.kids == [null, els] && els !in scopes && prev in scopes && scopes[prev].FallsThrough?
    requires SoundNodes(scopes, n.kids[..index]) && SoundNodes(scopes, els.kids) && AllSound(scopes, thn)
    ensures SoundUpTo(scopes, n.kids, |n.kids|, n.repr - {n})
  {
    assert prev.Valid() && prev.kids[1] == els;
    SoundNode(scopes, els);
    SoundNode(scopes, prev);
    forall j | 0 <= j < |n.kids| && n.kids[j] != null ensures AllSound(scopes, n.kids[j]) {
      if j < index { assert n.kids[..index][j] == n.kids[j]; }
    }
  }

  /** Where the swap takes place, or -1. */
  predicate IsSwap(start: seq<Ast>, index: int) {
    if |start| > 1 && ScopeOf(start[|start| - 1]).CallNoReturn? then index == LastCandidate(start, |start| - 1)
    else index == -1
  }

  function Traded(nodes: seq<Ast>, index: int): seq<Ast> {
    if 0 <= index < |nodes| && nodes[index].If? then
      nodes[..index] + [If(nodes[index].cond, Null, Seq(nodes[index + 1..])), nodes[index].thn]
    else nodes
  }

  lemma {:induction false} SwappedIs(start: seq<Ast>, index: int)
    requires IsSwap(start, index)
    ensures Swapped(start, PushDownTrees(start)) == Traded(PushDownTrees(start), index)
  {
    var t := PushDownTrees(start);
    assert forall i :: 0 <= i < |t| ==> start[i].If? ==> t[i].If?;
    if index >= 0 { assert Candidate(start[index]) && t[index] == PushDown(start[index]) && t[index].If?; }
  }

  /** Where a swap is called for, or -1. */
  method FindSwap(scopes: Scopes, kids: seq<Node?>, ghost start: seq<Ast>) returns (index: int)
    requires |kids| == |start| && AllRecalled(scopes, kids, start)
    ensures IsSwap(start, index)
  {
    if |kids| <= 1 {
      return -1;
    }
    var last := kids[|kids| - 1];
    assert Recalls(scopes, last, start[|kids| - 1]);
    if last == null || scopes[last] != CallNoReturn {
      return -1;
    }
    index := FindCandidate(scopes, kids, start);
  }

  /** An `if` with a `then` and without an `else`. */
  ghost predicate MayTrade(n: Node, index: nat)
    requires n.Valid() && index < |n.kids|
    reads n, n.repr
  {
    var k := n.kids[index];
    && k != null && k.shape.IfShape? && |k.kids| == 2 && k.kids[0] != null && k.kids[1] == null && n.trees[index].If?
  }

  lemma {:induction false} CandidateLinks(scopes: Scopes, n: Node, start: seq<Ast>, index: nat)
    requires n.Valid() && |start| == |n.kids| && AllRecalled(scopes, n.kids, start) && n.trees == PushDownTrees(start)
    requires index < |n.kids| && Candidate(start[index])
    ensures MayTrade(n, index) && n.kids[index] in scopes && scopes[n.kids[index]].FallsThrough?
  {
    assert Recalls(scopes, n.kids[index], start[index]);
    assert ScopeOf(start[index]).FallsThrough?;
  }

  /** The last `if` without `else` whose `then` is preferred behind it. */
  method FindCandidate(scopes: Scopes, kids: seq<Node?>, ghost start: seq<Ast>) returns (index: int)
    requires |kids| == |start| > 1 && AllRecalled(scopes, kids, start)
    ensures index == LastCandidate(start, |start| - 1)
  {
    index := |kids| - 2;
    while index >= 0
      invariant -1 <= index <= |kids| - 2
      invariant LastCandidate(start, |start| - 1) == LastCandidate(start, index + 1)
    {
      var k := kids[index];
      assert Recalls(scopes, k, start[index]);
      if k != null && k.shape.IfShape? && k.kids[1] == null && k.kids[0] != null
         && PreferredAsFallThrough(scopes[k.kids[0]]) {
        return;
      }
      assert !Candidate(start[index]);
      index := index - 1;
    }
  }

  /** The nodes of some of the children. */
  ghost function ReprsFrom(kids: seq<Node?>, i: nat): (r: set<Node>)
    reads set k | k in kids && k != null
    ensures forall j :: i <= j < |kids| && kids[j] != null ==> kids[j].repr <= r
  {
    set j, x | i <= j < |kids| && kids[j] != null && x in kids[j].repr :: x
  }

  lemma {:induction false} Apart(nodes: set<Node>, kids: seq<Node?>, i: nat)
    requires forall m :: i <= m < |kids| && kids[m] != null ==> nodes !! kids[m].repr
    ensures nodes !! ReprsFrom(kids, i)
  {
  }

  lemma {:induction false} SuffixAreKids(kids: seq<Node?>, i: nat, trees: seq<Ast>, below: set<Node>)
    requires i <= |kids| && AreKids(kids, trees, below)
    ensures AreKids(kids[i..], trees[i..], ReprsFrom(kids, i))
  {
    var k, t, r := kids[i..], trees[i..], ReprsFrom(kids, i);
    assert forall j :: 0 <= j < |k| ==> k[j] == kids[i + j];
    assert forall j :: 0 <= j < |k| ==> t[j] == trees[i + j];
    forall j | 0 <= j < |k| && k[j] != null ensures k[j] in r && k[j].repr <= r && k[j].Valid() {
      assert kids[i + j].Valid();
    }
    forall j, m | 0 <= j < m < |k| && k[j] != null && k[m] != null ensures k[j].repr !! k[m].repr {
      assert kids[i + j].repr !! kids[i + m].repr;
    }
  }

  /** The `if` gets the gathered nodes as its `else`, and gives up its `then`. */
  method SetElse(prev: Node, els: Node)
    requires prev.Valid() && prev.shape.IfShape? && els.Valid() && prev !in els.repr
    modifies prev
    ensures prev.Valid() && prev.repr == {prev} + els.repr && prev.shape == old(prev.shape)
    ensures prev.AllFlags() == old(prev.AllFlags()) && prev.kids == [null, els]
    ensures prev.Tree() == If(prev.shape.cond, Null, els.Tree())
  {
    prev.kids := [null, els];
    prev.Refresh([Null, els.Tree()], els.repr);
  }

  /** The prefix, the `if` and its former `then` share no nodes. */
  lemma {:induction false} NewKids(kids: seq<Node?>, index: nat, trees: seq<Ast>, prev: Node, thn: Node,
                                   mine: set<Node>, front: set<Node>, below: set<Node>)
    requires index <= |kids| == |trees| && AreKids(kids[..index], trees[..index], front) && front !! mine
    requires prev.Valid() && thn.Valid() && prev.repr !! thn.repr && prev.repr + thn.repr <= mine
    requires mine + front <= below
    ensures AreKids(kids[..index] + [prev, thn], trees[..index] + [prev.Tree(), thn.Tree()], below)
  {
  }

  /** The `if` gets the nodes behind it as its `else`, in a new sequence. */
  method MoveToElse(prev: Node, rest: seq<Node?>, ghost trees: seq<Ast>, ghost mine: set<Node>) returns (els: Node)
    requires prev.Valid() && prev.shape.IfShape? && prev.kids[0] != null
    requires AreKids(rest, trees, mine) && prev.repr !! mine
    modifies prev
    ensures fresh(els) && prev.Valid() && prev.repr == {prev, els} + mine
    ensures prev.Tree() == If(old(prev.shape.cond), Null, Seq(trees))
    ensures prev.kids == [null, els] && els.kids == rest
  {
    els := new Node(SeqShape, rest, trees, mine);
    assert els.Tree() == Seq(trees);
    SetElse(prev, els);
  }

  method TradePlaces(n: Node, index: nat) returns (els: Node)
    requires n.Valid() && n.shape.SeqShape? && index < |n.kids| - 1 && MayTrade(n, index)
    modifies n, n.kids[index]
    ensures n.Valid() && fresh(n.repr - old(n.repr)) && n.shape == old(n.shape)
    ensures n.trees
         == old(n.trees[..index] + [If(n.trees[index].cond, Null, Seq(n.trees[index + 1..])), n.trees[index].thn])
    ensures fresh(els) && old(n.kids[index]).kids == [null, els] && els.kids == old(n.kids[index + 1..])
    ensures n.kids == old(n.kids[..index] + [n.kids[index], n.kids[index].kids[0]])
  {
    ghost var trees := n.trees;
    var prev, thn := n.kids[index], n.kids[index].kids[0];
    ghost var front;
    els, front := Gather(n, index, thn);
    Relink(n, index, prev, thn, trees, front, prev.repr + thn.repr + front);
  }

  /** The nodes behind the `if` become its `else`; `front` holds those before it. */
  method Gather(n: Node, index: nat, thn: Node) returns (els: Node, ghost front: set<Node>)
    requires n.Valid() && n.shape.SeqShape? && index < |n.kids| - 1 && MayTrade(n, index)
    requires thn == n.kids[index].kids[0]
    modifies n.kids[index]
    ensures fresh(els) && n.kids[index].kids == [null, els] && els.kids == n.kids[index + 1..]
    ensures n.kids[index].Valid() && thn.Valid() && thn.Tree() == n.trees[index].thn
    ensures n.kids[index].Tree() == If(n.trees[index].cond, Null, Seq(n.trees[index + 1..]))
    ensures AreKids(n.kids[..index], n.trees[..index], front)
    ensures n.kids[index].repr !! thn.repr && front !! n.kids[index].repr && front !! thn.repr
    ensures n.kids[index].repr + thn.repr + front <= n.repr - {n} + {els}
  {
    var prev := n.kids[index];
    ghost var behind := ReprsFrom(n.kids, index + 1);
    front := n.repr - {n} - (prev.repr + behind);
    Parts(n, index);
    els := MoveToElse(prev, n.kids[index + 1..], n.trees[index + 1..], behind);
  }

  /** The `if`, its `then`, the nodes in front and the nodes behind share nothing. */
  lemma {:induction false} Parts(n: Node, index: nat)
    requires n.Valid() && index < |n.kids| && n.kids[index] != null && n.kids[index].shape.IfShape?
    requires |n.kids[index].kids| == 2 && n.kids[index].kids[0] != null && n.kids[index].kids[1] == null
    ensures var prev, behind := n.kids[index], ReprsFrom(n.kids, index + 1);
            && n.trees[index] == If(prev.shape.cond, prev.kids[0].Tree(), Null)
            && prev.Valid() && prev.kids[0].Valid() && prev.kids[0].repr <= prev.repr - {prev} && prev.repr !! behind
            && AreKids(n.kids[..index], n.trees[..index], n.repr - {n} - (prev.repr + behind))
            && AreKids(n.kids[index + 1..], n.trees[index + 1..], behind)
            && behind <= n.repr - {n}
  {
    FrontAreKids(n.kids, index, n.trees, n.repr - {n});
    SuffixAreKids(n.kids, index + 1, n.trees, n.repr - {n});
  }

  /** The sequence ends with the `if` and its former `then`. */
  method Relink(n: Node, index: nat, prev: Node, thn: Node, ghost trees: seq<Ast>, ghost front: set<Node>,
                ghost below: set<Node>)
    requires n.shape.SeqShape? && index <= |n.kids| == |trees| && AreKids(n.kids[..index], trees[..index], front)
    requires prev.Valid() && thn.Valid() && prev.repr !! thn.repr && front !! prev.repr && front !! thn.repr
    requires prev.repr + thn.repr + front <= below && n !in below
    modifies n
    ensures n.Valid() && n.repr == {n} + below && n.shape == old(n.shape)
    ensures n.trees == trees[..index] + [prev.Tree(), thn.Tree()] && n.kids == old(n.kids[..index]) + [prev, thn]
  {
    NewKids(n.kids, index, trees, prev, thn, prev.repr + thn.repr, front, below);
    n.kids := n.kids[..index] + [prev, thn];
    n.Refresh(trees[..index] + [prev.Tree(), thn.Tree()], below);
  }

  lemma {:induction false} FrontAreKids(kids: seq<Node?>, index: nat, trees: seq<Ast>, below: set<Node>)
    requires index < |kids| && AreKids(kids, trees, below) && kids[index] != null
    ensures AreKids(kids[..index], trees[..index], below - (kids[index].repr + ReprsFrom(kids, index + 1)))
    ensures kids[index].repr !! ReprsFrom(kids, index + 1)
  {
    Apart(kids[index].repr, kids, index + 1);
    forall j | 0 <= j < index && kids[j] != null
      ensures kids[j].repr !! ReprsFrom(kids, index + 1) && kids[j].repr !! kids[index].repr
    {
      Apart(kids[j].repr, kids, index + 1);
    }
  }

  /** Pushing down leaves no holes, and no labels twice. */
  lemma {:induction false} PushDownIsSolid(a: Ast)
    requires Solid(a) && DistinctLabels(a)
    ensures Solid(PushDown(a)) && DistinctLabels(PushDown(a))
  {
    match a
    case If(_, thn, els) =>
      if !thn.Null? { PushDownIsSolid(thn); }
      if !els.Null? { PushDownIsSolid(els); }
    case Scs(_, body) => if !body.Null? { PushDownIsSolid(body); }
    case Switch(_, cases, _, _) => forall i | 0 <= i < |cases| { PushDownIsSolid(cases[i].body); }
    case Seq(nodes) =>
      forall i | 0 <= i < |nodes| ensures Solid(PushDown(nodes[i])) && DistinctLabels(PushDown(nodes[i])) {
        PushDownIsSolid(nodes[i]);
      }
      SwappedIsSolid(nodes, PushDownSeq(nodes));
    case _ =>
  }

  lemma {:induction false} SwappedIsSolid(before: seq<Ast>, nodes: seq<Ast>)
    requires |before| == |nodes| > 0 && nodes == PushDownSeq(before)
    requires forall i :: 0 <= i < |nodes| ==> Solid(nodes[i]) && DistinctLabels(nodes[i])
    ensures Solid(Seq(Swapped(before, nodes))) && DistinctLabels(Seq(Swapped(before, nodes)))
  {
    var n := |before|;
    if n > 1 && ScopeOf(before[n - 1]).CallNoReturn? && LastCandidate(before, n - 1) >= 0 {
      var i := LastCandidate(before, n - 1);
      var rest := Seq(nodes[i + 1..]);
      assert nodes[i] == PushDown(before[i]) && !before[i].thn.Null?;
      PushedIsThere(before[i].thn);
      TradedIsSolid(nodes, i);
    }
  }

  lemma {:induction false} TradedIsSolid(nodes: seq<Ast>, i: nat)
    requires forall j :: 0 <= j < |nodes| ==> Solid(nodes[j]) && DistinctLabels(nodes[j])
    requires i < |nodes| - 1 && nodes[i].If? && !nodes[i].thn.Null?
    ensures var s := Seq(nodes[..i] + [If(nodes[i].cond, Null, Seq(nodes[i + 1..])), nodes[i].thn]);
            Solid(s) && DistinctLabels(s)
  {
    var rest := Seq(nodes[i + 1..]);
    assert Solid(nodes[i]) && DistinctLabels(nodes[i]);
    assert Solid(rest) && DistinctLabels(rest);
    var last := If(nodes[i].cond, Null, rest);
    assert Solid(last) && DistinctLabels(last);
  }

  lemma {:induction false} PushedIsThere(a: Ast)
    requires !a.Null?
    ensures !PushDown(a).Null?
  {
  }

  /** The analysis, the transformation and the normalization behind it. */
  method PromoteCallNoReturn(root: Node) returns (r: Node?)
    requires root.Valid() && Analysable(root.Tree()) && Solid(root.Tree()) && DistinctLabels(root.Tree())
    modifies root.repr
    ensures r != null && r.Valid() && r.Tree() == Canonical(PushDown(old(root.Tree()))) && Normal(r.Tree())
    ensures forall w: World :: Equivalent(w, old(root.Tree()), r.Tree())
  {
    ghost var before := root.Tree();
    PushDownIsSolid(before);
    var _ := PushDownRoot(root);
    r := CanonicalizeInPlace(root);
    PushedAndNormalized(before, r.Tree());
  }

  /** Every entry of the map is still sound when the pass is done. */
  method PushDownRoot(root: Node) returns (scopes: Scopes)
    requires root.Valid()
    modifies root.repr
    ensures root.Valid() && fresh(root.repr - old(root.repr)) && root.Tree() == PushDown(old(root.Tree()))
    ensures root in scopes && scopes[root] == ScopeOf(old(root.Tree()))
    ensures old(Analysable(root.Tree())) ==> AllSound(scopes, root)
  {
    scopes := ComputeFallThroughScope(root);
    PushDownNode(scopes, root);
  }

  lemma {:induction false} PushedAndNormalized(a: Ast, b: Ast)
    requires Analysable(a) && forall w: World :: Equivalent(w, PushDown(a), b)
    ensures forall w: World :: Equivalent(w, a, b)
  {
    forall w: World ensures Equivalent(w, a, b) {
      PushDownPreserves(w, a);
      EquivalentTrans(w, a, PushDown(a), b);
    }
  }
}

/** Promotion of branches that do not fall through, on the linked nodes and with the
    maps of scope types and weights kept up to date. */
module InPlacePromotion {
  import opened Ghast
  import opened FallThrough
  import opened Canonicalize
  import opened AstNode
  import opened InPlaceAnalysis
  import opened InPlaceCanonicalize

  function PromoteTrees(trees: seq<Ast>): (r: seq<Ast>)
    ensures |r| == |trees| && forall j :: 0 <= j < |trees| ==> r[j] == Promote(trees[j])
  {
    if trees == [] then [] else [Promote(trees[0])] + PromoteTrees(trees[1..])
  }

  lemma {:induction false} PromoteBuild(s: Shape, f: Flags, trees: seq<Ast>)
    requires Fits(s, |trees|) && !s.IfShape?
    ensures Promote(Build(s, f, trees)) == Build(s, f, PromoteTrees(trees))
  {
    match s
    case SeqShape => assert PromoteTrees(trees) == PromoteSeq(trees);
    case SwitchShape(_, labels) => assert CasesOf(labels, PromoteTrees(trees)) == PromoteCases(CasesOf(labels, trees));
    case _ =>
  }

  /** What becomes of an `if` with the original branches `t` and `e`. */
  function PromotedIf(cond: Condition, t: Ast, e: Ast): Ast {
    if t.Null? || e.Null? then If(cond, Promote(t), Promote(e))
    else
      match Choose(ScopeOf(t), ScopeOf(e), Weight(t), Weight(e))
      case PromoteElse => Seq([If(cond, Promote(t), Null), Promote(e)])
      case PromoteThen => Seq([If(cond, Null, Promote(e)), Promote(t)])
      case PromoteNeither => If(cond, Promote(t), Promote(e))
  }

  lemma {:induction false} PromoteIsPromotedIf(cond: Condition, t: Ast, e: Ast)
    ensures Promote(If(cond, t, e)) == PromotedIf(cond, t, e)
  {
  }

  /** The maps know a promoted node as what it was before. */
  ghost predicate Entry(scopes: Scopes, weights: Weights, k: Node?, t: Ast) {
    k != null ==> k in scopes && scopes[k] == ScopeOf(t) && k in weights && weights[k] == Weight(t)
  }

  ghost predicate Extends<T(!new)>(a: map<Node, T>, b: map<Node, T>) {
    forall n :: n in a.Keys ==> n in b && b[n] == a[n]
  }

  /** What is left to be visited: subtrees made of old nodes, known to the maps. */
  ghost predicate Waiting(scopes: Scopes, weights: Weights, kids: seq<Node?>, i: nat, top: set<Node>)
    reads (set k | k in kids && k != null), top
  {
    forall j :: i <= j < |kids| && kids[j] != null ==>
      kids[j].repr <= top && kids[j] in top && kids[j].Valid() && Knows(scopes, kids[j]) && Weighs(weights, kids[j])
  }

  lemma {:induction false} StillWaiting(a: Scopes, b: Scopes, v: Weights, w: Weights, kids: seq<Node?>, i: nat,
                                        top: set<Node>)
    requires Waiting(a, v, kids, i, top) && Extends(a, b) && Extends(v, w)
    ensures Waiting(b, w, kids, i, top)
  {
    forall j | i <= j < |kids| && kids[j] != null ensures Knows(b, kids[j]) && Weighs(w, kids[j]) {
      KnowsFrame(a, b, kids[j]);
      WeighsFrame(v, w, kids[j]);
    }
  }

  lemma {:induction false} NextWaits(scopes: Scopes, weights: Weights, kids: seq<Node?>, top: set<Node>)
    requires kids != [] && Waiting(scopes, weights, kids, 0, top)
    ensures Waiting(scopes, weights, kids[1..], 0, top)
    ensures kids[0] != null ==>
              kids[0].Valid() && kids[0].repr <= top && Knows(scopes, kids[0]) && Weighs(weights, kids[0])
  {
  }

  /** The children before position `i` have been visited. */
  ghost predicate Visited(scopes: Scopes, weights: Weights, kids: seq<Node?>, trees: seq<Ast>, start: seq<Ast>,
                          i: nat) {
    && |kids| == |trees| == |start| && i <= |kids|
    && (forall j :: 0 <= j < i ==>
          trees[j] == Promote(start[j]) && Entry(scopes, weights, kids[j], start[j])
          && (kids[j] == null <==> start[j].Null?))
    && (forall j :: i <= j < |kids| ==> trees[j] == start[j])
  }

  lemma {:induction false} StillVisited(a: Scopes, b: Scopes, v: Weights, w: Weights, kids: seq<Node?>, trees: seq<Ast>,
                                        start: seq<Ast>, i: nat, r: Node?)
    requires i < |kids| && Visited(a, v, kids, trees, start, i) && Extends(a, b) && Extends(v, w)
    requires Entry(b, w, r, start[i]) && (r == null <==> start[i].Null?)
    ensures Visited(b, w, kids[i := r], trees[i := Promote(trees[i])], start, i + 1) && trees[i] == start[i]
  {
  }

  // ----- What the map of scope types still promises -----

  /** An `if` that lost one of two branches, neither of which falls through: its entry was
      made for both. No other `if` with a single branch has such an entry. */
  ghost predicate Stale(scopes: Scopes, n: Node)
    reads n
  {
    && n in scopes && !scopes[n].FallsThrough?
    && n.shape.IfShape? && |n.kids| == 2 && (n.kids[0] == null || n.kids[1] == null)
  }

  ghost predicate KeepsNonFalling(n: Node)
    requires n.Valid() && n.shape.IfShape?
    reads n, n.repr
  {
    var b := if n.kids[0] != null then n.kids[0] else n.kids[1];
    (n.kids[0] == null || n.kids[1] == null) && b != null && forall w: World :: NeverFalls(w, b.Tree())
  }

  /** All nodes of the subtree have entries, that are sound unless they are stale. */
  ghost predicate AllTrusted(scopes: Scopes, n: Node)
    requires n.Valid()
    reads n, n.repr
    decreases n.repr
  {
    && n in scopes && (if Stale(scopes, n) then KeepsNonFalling(n) else SoundEntry(scopes, n))
    && (forall i :: 0 <= i < |n.kids| && n.kids[i] != null ==> AllTrusted(scopes, n.kids[i]))
  }

  /** No run ever asks for the branch that an `if` has lost. */
  ghost predicate NeverAsksForLost(n: Node)
    requires n.shape.IfShape? && |n.kids| == 2
    reads n
  {
    var cond, stays := n.shape.cond, n.kids[0] != null;
    forall w: World :: AlwaysTests(w, cond, stays)
  }

  /** A stale entry is right exactly when no run ever asks for the branch that is gone, and
      so never where the test is atomic. */
  lemma {:induction false} StaleIsSoundIff(scopes: Scopes, n: Node)
    requires n.Valid() && Stale(scopes, n) && KeepsNonFalling(n)
    ensures SoundEntry(scopes, n) <==> NeverAsksForLost(n)
    ensures n.shape.cond.expr.Atomic? ==> !SoundEntry(scopes, n)
  {
    var stays := n.kids[0] != null;
    var b := if stays then n.kids[0] else n.kids[1];
    assert n.Tree() == if stays then If(n.shape.cond, b.Tree(), Null) else If(n.shape.cond, Null, b.Tree());
    forall w: World ensures NeverFalls(w, n.Tree()) <==> AlwaysTests(w, n.shape.cond, stays) {
      OneArmedFallsIff(w, n.shape.cond, b.Tree(), stays);
    }
    if n.shape.cond.expr.Atomic? { AtomicTestIsFree(n.shape.cond, stays); }
  }

  /** Which entries of the map are right after the pass, for every node of the tree. */
  lemma {:induction false} EntryIsSoundIff(scopes: Scopes, n: Node, m: Node)
    requires n.Valid() && AllTrusted(scopes, n) && Under(m, n)
    ensures m in scopes
    ensures SoundEntry(scopes, m) <==> (Stale(scopes, m) ==> NeverAsksForLost(m))
    decreases n.repr
  {
    if m == n {
      if Stale(scopes, n) { StaleIsSoundIff(scopes, n); }
    } else {
      var i :| 0 <= i < |n.kids| && n.kids[i] != null && Under(m, n.kids[i]);
      EntryIsSoundIff(scopes, n.kids[i], m);
    }
  }

  lemma {:induction false} StillTrusted(a: Scopes, b: Scopes, n: Node)
    requires n.Valid() && AllTrusted(a, n) && Extends(a, b)
    ensures AllTrusted(b, n)
    decreases n.repr
  {
    forall i | 0 <= i < |n.kids| && n.kids[i] != null ensures AllTrusted(b, n.kids[i]) {
      StillTrusted(a, b, n.kids[i]);
    }
  }

  /** The children before position `i` are in place, and their own entries can be read. */
  ghost predicate DoneUpTo(scopes: Scopes, kids: seq<Node?>, i: nat, below: set<Node>, sound: bool)
    reads (set k | k in kids && k != null), below
  {
    forall j :: 0 <= j < |kids| && j < i && kids[j] != null ==>
      && kids[j] in below && kids[j].repr <= below && kids[j].Valid()
      && kids[j] in scopes && !Stale(scopes, kids[j]) && (sound ==> AllTrusted(scopes, kids[j]))
  }

  lemma {:induction false} StillDone(a: Scopes, b: Scopes, kids: seq<Node?>, i: nat, below: set<Node>, sound: bool)
    requires DoneUpTo(a, kids, i, below, sound) && Extends(a, b)
    ensures DoneUpTo(b, kids, i, below, sound)
  {
    if sound {
      forall j | 0 <= j < |kids| && j < i && kids[j] != null ensures AllTrusted(b, kids[j]) {
        StillTrusted(a, b, kids[j]);
      }
    }
  }

  lemma {:induction false} OneMoreDone(scopes: Scopes, kids: seq<Node?>, i: nat, r: Node?, below: set<Node>,
                                       below2: set<Node>, sound: bool)
    requires DoneUpTo(scopes, kids, i, below, sound) && i < |kids| && below <= below2
    requires r != null ==>
               && r in below2 && r.repr <= below2 && r.Valid() && r in scopes && !Stale(scopes, r)
               && (sound ==> AllTrusted(scopes, r))
    ensures DoneUpTo(scopes, kids[i := r], i + 1, below2, sound)
  {
  }

  /** A node that keeps its children keeps a sound entry. */
  lemma {:induction false} KeptIsTrusted(scopes: Scopes, n: Node, before: Ast)
    requires n.Valid() && Analysable(before) && n.Tree() == Promote(before)
    requires n in scopes && scopes[n] == ScopeOf(before) && !Stale(scopes, n)
    requires DoneUpTo(scopes, n.kids, |n.kids|, n.repr - {n}, true)
    ensures AllTrusted(scopes, n)
  {
    if !scopes[n].FallsThrough? {
      forall w: World ensures NeverFalls(w, n.Tree()) { PromotedNeverFalls(w, before); }
    }
  }

  lemma {:induction false} PromotedNeverFalls(w: World, a: Ast)
    requires Analysable(a) && !ScopeOf(a).FallsThrough?
    ensures NeverFalls(w, Promote(a))
  {
    PromotePreserves(w, a);
    NonFallingNeverFalls(w, a);
    EquivalentNeverFalls(w, a, Promote(a));
  }

  /** An `if` that lost a branch, and the sequence that now stands for it. */
  lemma {:induction false} MovedIsTrusted(scopes: Scopes, r: Node, n: Node, kept: Node, moved: Node, before: Ast)
    requires r.Valid() && n.Valid() && kept.Valid() && moved.Valid() && r.shape.SeqShape? && r.kids == [n, moved]
    requires n.shape.IfShape? && (n.kids == [kept, null] || n.kids == [null, kept])
    requires AllTrusted(scopes, kept) && AllTrusted(scopes, moved)
    requires n in scopes && r in scopes && scopes[n] == ScopeOf(before) == scopes[r]
    requires Analysable(before) && r.Tree() == Promote(before)
    requires !ScopeOf(before).FallsThrough? ==> forall w: World :: NeverFalls(w, kept.Tree())
    ensures AllTrusted(scopes, r)
  {
    assert AllTrusted(scopes, n);
    if !scopes[r].FallsThrough? {
      forall w: World ensures NeverFalls(w, r.Tree()) { PromotedNeverFalls(w, before); }
    }
  }

  lemma {:induction false} BranchesNeverFall(cond: Condition, t: Ast, e: Ast)
    requires Analysable(If(cond, t, e)) && !ScopeOf(If(cond, t, e)).FallsThrough?
    ensures forall w: World :: NeverFalls(w, Promote(t)) && NeverFalls(w, Promote(e))
  {
    forall w: World ensures NeverFalls(w, Promote(t)) && NeverFalls(w, Promote(e)) {
      PromotedNeverFalls(w, t);
      PromotedNeverFalls(w, e);
    }
  }

  lemma {:induction false} KeepThen(n: Node)
    requires n.Valid() && n.shape.IfShape? && n.kids[0] != null && n.kids[1] != null
    ensures AreKids([n.kids[0], null], [n.kids[0].Tree(), Null], n.repr - {n} - n.kids[1].repr)
    ensures n.trees == [n.kids[0].Tree(), n.kids[1].Tree()]
  {
  }

  lemma {:induction false} KeepElse(n: Node)
    requires n.Valid() && n.shape.IfShape? && n.kids[0] != null && n.kids[1] != null
    ensures AreKids([null, n.kids[1]], [Null, n.kids[1].Tree()], n.repr - {n} - n.kids[0].repr)
    ensures n.trees == [n.kids[0].Tree(), n.kids[1].Tree()]
  {
  }

  class FallThroughPromotion {
    var scopes: Scopes
    var weights: Weights

    constructor (scopes: Scopes, weights: Weights)
      ensures this.scopes == scopes && this.weights == weights
    {
      this.scopes, this.weights := scopes, weights;
    }

    /** The type that a decision relies on; no decision ever reads a stale entry. */
    function TypeOf(k: Node): ScopeType
      requires k in scopes && !Stale(scopes, k)
      reads this, k
    {
      scopes[k]
    }

    /** A child, while the children behind it keep waiting, and those before it keep what
        is known about them. */
    method PromoteFirst(kids: seq<Node?>, i: nat, rest: seq<Node?>, ghost trees: seq<Ast>, ghost below: set<Node>,
                        ghost top: set<Node>, ghost sound: bool) returns (r: Node)
      requires i < |kids| && kids[i] != null && kids[i].Valid() && kids[i].repr <= top
      requires Knows(scopes, kids[i]) && Weighs(weights, kids[i])
      requires Others(kids, i, trees, below, kids[i].repr) && Waiting(scopes, weights, rest, 0, top)
      requires forall j :: 0 <= j < |rest| && rest[j] != null ==> rest[j].repr !! kids[i].repr
      requires DoneUpTo(scopes, kids, i, below, sound)
      modifies kids[i].repr, this
      ensures r.Valid() && fresh(r.repr - old(kids[i].repr)) && r.Tree() == Promote(old(kids[i].Tree()))
      ensures Entry(scopes, weights, r, old(kids[i].Tree())) && Waiting(scopes, weights, rest, 0, top)
      ensures Extends(old(scopes), scopes) && Extends(old(weights), weights)
      ensures Others(kids, i, trees, below, old(kids[i].repr)) && DoneUpTo(scopes, kids, i, below, sound)
      ensures !Stale(scopes, r) && (old(Analysable(kids[i].Tree())) ==> AllTrusted(scopes, r))
      decreases top, 4
    {
      r := PromoteBeside(kids, i, trees, below, top, sound, rest);
      StillDone(old(scopes), scopes, kids, i, below, sound);
    }

    method PromoteBeside(kids: seq<Node?>, i: nat, ghost trees: seq<Ast>, ghost below: set<Node>, ghost top: set<Node>,
                         ghost sound: bool, rest: seq<Node?>) returns (r: Node)
      requires i < |kids| && kids[i] != null && kids[i].Valid() && kids[i].repr <= top
      requires Knows(scopes, kids[i]) && Weighs(weights, kids[i])
      requires Others(kids, i, trees, below, kids[i].repr) && Waiting(scopes, weights, rest, 0, top)
      requires forall j :: 0 <= j < |rest| && rest[j] != null ==> rest[j].repr !! kids[i].repr
      requires DoneUpTo(scopes, kids, i, below, sound)
      modifies kids[i].repr, this
      ensures r.Valid() && fresh(r.repr - old(kids[i].repr)) && r.Tree() == Promote(old(kids[i].Tree()))
      ensures Entry(scopes, weights, r, old(kids[i].Tree())) && Waiting(scopes, weights, rest, 0, top)
      ensures Extends(old(scopes), scopes) && Extends(old(weights), weights)
      ensures Others(kids, i, trees, below, old(kids[i].repr)) && DoneUpTo(old(scopes), kids, i, below, sound)
      ensures !Stale(scopes, r) && (old(Analysable(kids[i].Tree())) ==> AllTrusted(scopes, r))
      decreases top, 3
    {
      r := PromoteAlone(kids, i, trees, below, top, sound);
      assert Waiting(old(scopes), old(weights), rest, 0, top);
      StillWaiting(old(scopes), scopes, old(weights), weights, rest, 0, top);
    }

    method PromoteAlone(kids: seq<Node?>, i: nat, ghost trees: seq<Ast>, ghost below: set<Node>, ghost top: set<Node>,
                        ghost sound: bool) returns (r: Node)
      requires i < |kids| && kids[i] != null && kids[i].Valid() && kids[i].repr <= top
      requires Knows(scopes, kids[i]) && Weighs(weights, kids[i])
      requires Others(kids, i, trees, below, kids[i].repr) && DoneUpTo(scopes, kids, i, below, sound)
      modifies kids[i].repr, this
      ensures r.Valid() && fresh(r.repr - old(kids[i].repr)) && r.Tree() == Promote(old(kids[i].Tree()))
      ensures Entry(scopes, weights, r, old(kids[i].Tree()))
      ensures Extends(old(scopes), scopes) && Extends(old(weights), weights)
      ensures Others(kids, i, trees, below, old(kids[i].repr)) && DoneUpTo(old(scopes), kids, i, below, sound)
      ensures !Stale(scopes, r) && (old(Analysable(kids[i].Tree())) ==> AllTrusted(scopes, r))
      decreases top, 2
    {
      r := PromoteNode(kids[i]);
    }

    method PromoteKid(kids: seq<Node?>, i: nat, rest: seq<Node?>, ghost trees: seq<Ast>, ghost below: set<Node>,
                      ghost top: set<Node>, ghost sound: bool)
      returns (r: Node?, ghost below2: set<Node>)
      requires i < |kids| && AreKids(kids, trees, below) && rest == kids[i + 1..]
      requires kids[i] != null ==> kids[i].repr <= top && Knows(scopes, kids[i]) && Weighs(weights, kids[i])
      requires Waiting(scopes, weights, rest, 0, top) && DoneUpTo(scopes, kids, i, below, sound)
      requires sound ==> Analysable(trees[i])
      modifies below, this
      ensures below <= below2 && fresh(below2 - below)
      ensures AreKids(kids[i := r], trees[i := Promote(trees[i])], below2)
      ensures Waiting(scopes, weights, rest, 0, top) && DoneUpTo(scopes, kids[i := r], i + 1, below2, sound)
      ensures Entry(scopes, weights, r, trees[i]) && (r == null <==> trees[i].Null?)
      ensures Extends(old(scopes), scopes) && Extends(old(weights), weights)
      decreases top, 5
    {
      r, below2 := null, below;
      if kids[i] != null {
        ghost var mine := kids[i].repr;
        KidAndOthers(kids, i, trees, below);
        r := PromoteFirst(kids, i, rest, trees, below, top, sound);
        OthersAndNew(kids, i, r, trees, below, mine);
        below2 := below + r.repr;
      }
      OneMoreDone(scopes, kids, i, r, below, below2, sound);
    }

    /** The children before position `i` have been visited, the others are waiting. */
    ghost predicate InProgress(kids: seq<Node?>, trees: seq<Ast>, start: seq<Ast>, below: set<Node>, top: set<Node>,
                               i: nat, sound: bool)
      reads this, (set k | k in kids && k != null), below, top
    {
      && i <= |kids| && AreKids(kids, trees, below) && Waiting(scopes, weights, kids[i..], 0, top)
      && Visited(scopes, weights, kids, trees, start, i) && DoneUpTo(scopes, kids, i, below, sound)
    }

    method PromoteNext(kids: seq<Node?>, i: nat, ghost trees: seq<Ast>, ghost start: seq<Ast>, ghost below: set<Node>,
                       ghost top: set<Node>, ghost sound: bool)
      returns (r: Node?, ghost trees2: seq<Ast>, ghost below2: set<Node>)
      requires i < |kids| && InProgress(kids, trees, start, below, top, i, sound)
      requires sound ==> forall j :: 0 <= j < |start| ==> Analysable(start[j])
      modifies below, this
      ensures below <= below2 && fresh(below2 - below)
      ensures InProgress(kids[i := r], trees2, start, below2, top, i + 1, sound)
      ensures Extends(old(scopes), scopes) && Extends(old(weights), weights)
      decreases top, 6
    {
      NextWaits(scopes, weights, kids[i..], top);
      assert kids[i..][0] == kids[i] && kids[i..][1..] == kids[i + 1..];
      r, below2 := PromoteKid(kids, i, kids[i + 1..], trees, below, top, sound);
      StillVisited(old(scopes), scopes, old(weights), weights, kids, trees, start, i, r);
      trees2 := trees[i := Promote(trees[i])];
      assert kids[i := r][i + 1..] == kids[i + 1..];
    }

    method PromoteAll(start: seq<Node?>, ghost trees: seq<Ast>, ghost top: set<Node>, ghost sound: bool)
      returns (kids: seq<Node?>, ghost trees2: seq<Ast>, ghost below: set<Node>)
      requires AreKids(start, trees, top) && Waiting(scopes, weights, start, 0, top)
      requires sound ==> forall j :: 0 <= j < |trees| ==> Analysable(trees[j])
      modifies top, this
      ensures |kids| == |start| && top <= below && fresh(below - top)
      ensures AreKids(kids, trees2, below) && trees2 == PromoteTrees(trees)
      ensures Visited(scopes, weights, kids, trees2, trees, |kids|) && DoneUpTo(scopes, kids, |kids|, below, sound)
      ensures Extends(old(scopes), scopes) && Extends(old(weights), weights)
      decreases top, 7
    {
      kids, trees2, below := start, trees, top;
      var i := 0;
      assert kids[0..] == kids;
      while i < |kids|
        invariant 0 <= i <= |kids| == |start| && top <= below && fresh(below - top)
        invariant InProgress(kids, trees2, trees, below, top, i, sound)
        invariant Extends(old(scopes), scopes) && Extends(old(weights), weights)
      {
        var r;
        r, trees2, below := PromoteNext(kids, i, trees2, trees, below, top, sound);
        kids := kids[i := r];
        i := i + 1;
      }
      assert trees2 == PromoteTrees(trees);
    }

    /** All children of a node; the node itself is linked to what has become of them. */
    method PromoteKids(n: Node, ghost sound: bool)
      requires n.Valid() && Knows(scopes, n) && WeighsBelow(weights, n) && (sound ==> Analysable(n.Tree()))
      modifies n.repr, this
      ensures n.Valid() && fresh(n.repr - old(n.repr)) && n.shape == old(n.shape) && n.AllFlags() == old(n.AllFlags())
      ensures n.trees == PromoteTrees(old(n.trees))
      ensures Visited(scopes, weights, n.kids, n.trees, old(n.trees), |n.kids|)
      ensures DoneUpTo(scopes, n.kids, |n.kids|, n.repr - {n}, sound)
      ensures Extends(old(scopes), scopes) && Extends(old(weights), weights)
      decreases n.repr, 0
    {
      if sound { KidsAnalysable(n.shape, n.AllFlags(), n.trees); }
      KidsWait(scopes, weights, n);
      var kids;
      ghost var trees, below;
      kids, trees, below := PromoteAll(n.kids, n.trees, n.repr - {n}, sound);
      Link(n, kids, trees, below, sound);
    }

    method Link(n: Node, kids: seq<Node?>, ghost trees: seq<Ast>, ghost below: set<Node>, ghost sound: bool)
      requires Fits(n.shape, |kids|) && AreKids(kids, trees, below) && n !in below
      requires DoneUpTo(scopes, kids, |kids|, below, sound)
      modifies n
      ensures n.Valid() && n.repr == {n} + below && n.shape == old(n.shape) && n.AllFlags() == old(n.AllFlags())
      ensures n.kids == kids && n.trees == trees && DoneUpTo(scopes, kids, |kids|, n.repr - {n}, sound)
    {
      n.kids := kids;
      n.Refresh(trees, below);
      assert n.repr - {n} == below;
    }

    method PromoteNode(n: Node) returns (r: Node)
      requires n.Valid() && Knows(scopes, n) && Weighs(weights, n)
      modifies n.repr, this
      ensures r.Valid() && fresh(r.repr - old(n.repr)) && r.Tree() == Promote(old(n.Tree()))
      ensures Entry(scopes, weights, r, old(n.Tree()))
      ensures Extends(old(scopes), scopes) && Extends(old(weights), weights)
      ensures !Stale(scopes, r) && (old(Analysable(n.Tree())) ==> AllTrusted(scopes, r))
      decreases n.repr, 1
    {
      ghost var before, flags, start := n.Tree(), n.AllFlags(), n.trees;
      ghost var sound := Analysable(before);
      PromoteKids(n, sound);
      r := PromoteBehindKids(n, before, flags, start, sound);
    }

    /** A node whose children have been visited; `before` and `start` are the trees of the
        node and of its children from before. */
    method PromoteBehindKids(n: Node, ghost before: Ast, ghost flags: Flags, ghost start: seq<Ast>, ghost sound: bool)
      returns (r: Node)
      requires n.Valid() && |start| == |n.kids| && n.AllFlags() == flags && before == Build(n.shape, flags, start)
      requires n in weights && n in scopes && scopes[n] == ScopeOf(before)
      requires n.trees == PromoteTrees(start) && Visited(scopes, weights, n.kids, n.trees, start, |n.kids|)
      requires DoneUpTo(scopes, n.kids, |n.kids|, n.repr - {n}, sound) && (sound ==> Analysable(before))
      modifies n, this
      ensures r.Valid() && fresh(r.repr - old(n.repr)) && r.Tree() == Promote(before)
      ensures r in scopes && scopes[r] == old(scopes)[n] && r in weights && weights[r] == old(weights)[n]
      ensures Extends(old(scopes), scopes) && Extends(old(weights), weights)
      ensures !Stale(scopes, r) && (sound ==> AllTrusted(scopes, r))
    {
      if n.shape.IfShape? {
        PromoteIsPromotedIf(n.shape.cond, start[0], start[1]);
        r := PromoteIf(n, start, sound);
      } else {
        PromoteBuild(n.shape, flags, start);
        if sound { KeptIsTrusted(scopes, n, before); }
        r := n;
      }
    }

    /** An `if` whose branches have been visited; `start` holds their original trees. */
    method PromoteIf(n: Node, ghost start: seq<Ast>, ghost sound: bool) returns (r: Node)
      requires n.Valid() && n.shape.IfShape? && |start| == 2 && n in weights
      requires n in scopes && scopes[n] == ScopeOf(If(n.shape.cond, start[0], start[1]))
      requires n.trees == PromoteTrees(start) && Visited(scopes, weights, n.kids, n.trees, start, |n.kids|)
      requires DoneUpTo(scopes, n.kids, |n.kids|, n.repr - {n}, sound)
      requires sound ==> Analysable(If(n.shape.cond, start[0], start[1]))
      modifies n, this
      ensures r.Valid() && fresh(r.repr - old(n.repr))
      ensures r.Tree() == PromotedIf(old(n.shape.cond), start[0], start[1])
      ensures r in scopes && scopes[r] == old(scopes)[n] && r in weights && weights[r] == old(weights)[n]
      ensures Extends(old(scopes), scopes) && Extends(old(weights), weights)
      ensures !Stale(scopes, r) && (sound ==> AllTrusted(scopes, r))
    {
      var thn, els := n.kids[0], n.kids[1];
      ghost var before := If(n.shape.cond, start[0], start[1]);
      if thn == null || els == null {
        if sound { KeptIsTrusted(scopes, n, before); }
        return n;
      }
      var choice := Choose(TypeOf(thn), TypeOf(els), weights[thn], weights[els]);
      if choice.PromoteElse? {
        r := PromoteElseBranch(n, start, sound);
      } else if choice.PromoteThen? {
        r := PromoteThenBranch(n, start, sound);
      } else {
        if sound { KeptIsTrusted(scopes, n, before); }
        r := n;
      }
    }

    /** The `else` leaves the `if`. */
    method PromoteElseBranch(n: Node, ghost start: seq<Ast>, ghost sound: bool) returns (r: Node)
      requires n.Valid() && n.shape.IfShape? && |start| == 2 && n in weights && n.kids[0] != null && n.kids[1] != null
      requires n in scopes && scopes[n] == ScopeOf(If(n.shape.cond, start[0], start[1]))
      requires n.trees == PromoteTrees(start)
      requires DoneUpTo(scopes, n.kids, |n.kids|, n.repr - {n}, sound)
      requires sound ==> Analysable(If(n.shape.cond, start[0], start[1]))
      requires PromotedIf(n.shape.cond, start[0], start[1])
            == Seq([If(n.shape.cond, Promote(start[0]), Null), Promote(start[1])])
      modifies n, this
      ensures r.Valid() && fresh(r.repr - old(n.repr))
      ensures r.Tree() == Seq([If(old(n.shape.cond), Promote(start[0]), Null), Promote(start[1])])
      ensures r in scopes && scopes[r] == old(scopes)[n] && r in weights && weights[r] == old(weights)[n]
      ensures Extends(old(scopes), scopes) && Extends(old(weights), weights)
      ensures !Stale(scopes, r) && (sound ==> AllTrusted(scopes, r))
    {
      var thn, els := n.kids[0], n.kids[1];
      ghost var before := If(n.shape.cond, start[0], start[1]);
      KeepThen(n);
      r := MoveSoundly(n, [thn, null], thn, els, [thn.Tree(), Null], before, sound);
    }

    /** The `then` leaves the `if`. */
    method PromoteThenBranch(n: Node, ghost start: seq<Ast>, ghost sound: bool) returns (r: Node)
      requires n.Valid() && n.shape.IfShape? && |start| == 2 && n in weights && n.kids[0] != null && n.kids[1] != null
      requires n in scopes && scopes[n] == ScopeOf(If(n.shape.cond, start[0], start[1]))
      requires n.trees == PromoteTrees(start)
      requires DoneUpTo(scopes, n.kids, |n.kids|, n.repr - {n}, sound)
      requires sound ==> Analysable(If(n.shape.cond, start[0], start[1]))
      requires PromotedIf(n.shape.cond, start[0], start[1])
            == Seq([If(n.shape.cond, Null, Promote(start[1])), Promote(start[0])])
      modifies n, this
      ensures r.Valid() && fresh(r.repr - old(n.repr))
      ensures r.Tree() == Seq([If(old(n.shape.cond), Null, Promote(start[1])), Promote(start[0])])
      ensures r in scopes && scopes[r] == old(scopes)[n] && r in weights && weights[r] == old(weights)[n]
      ensures Extends(old(scopes), scopes) && Extends(old(weights), weights)
      ensures !Stale(scopes, r) && (sound ==> AllTrusted(scopes, r))
    {
      var thn, els := n.kids[0], n.kids[1];
      ghost var before := If(n.shape.cond, start[0], start[1]);
      KeepElse(n);
      r := MoveSoundly(n, [null, els], els, thn, [Null, els.Tree()], before, sound);
    }

    method MoveSoundly(n: Node, kept: seq<Node?>, keeps: Node, moved: Node, ghost trees: seq<Ast>, ghost before: Ast,
                       ghost sound: bool) returns (r: Node)
      requires n.Valid() && n.shape.IfShape? && n in scopes && n in weights && keeps in n.kids && moved in n.kids
      requires (kept == [keeps, null] || kept == [null, keeps]) && AreKids(kept, trees, n.repr - {n} - moved.repr)
      requires sound ==> AllTrusted(scopes, keeps) && AllTrusted(scopes, moved) && scopes[n] == ScopeOf(before)
      requires sound ==> Analysable(before) && before.If?
      requires sound ==> keeps.Tree() == Promote(before.thn) || keeps.Tree() == Promote(before.els)
      requires sound ==> Seq([If(n.shape.cond, trees[0], trees[1]), moved.Tree()]) == Promote(before)
      modifies n, this
      ensures r.Valid() && fresh(r.repr - old(n.repr))
      ensures r.Tree() == Seq([If(old(n.shape.cond), trees[0], trees[1]), old(moved.Tree())])
      ensures r in scopes && scopes[r] == old(scopes)[n] && r in weights && weights[r] == old(weights)[n]
      ensures Extends(old(scopes), scopes) && Extends(old(weights), weights)
      ensures !Stale(scopes, r) && (sound ==> AllTrusted(scopes, r))
    {
      r := MoveApart(n, kept, keeps, moved, trees, sound);
      if sound {
        MovedSoundly(old(scopes), scopes, r, n, keeps, moved, before);
      }
    }

    method MoveApart(n: Node, kept: seq<Node?>, keeps: Node, moved: Node, ghost trees: seq<Ast>, ghost sound: bool)
      returns (r: Node)
      requires n.Valid() && n.shape.IfShape? && n in scopes && n in weights && keeps in n.kids && moved in n.kids
      requires AreKids(kept, trees, n.repr - {n} - moved.repr) && |kept| == 2
      requires sound ==> AllTrusted(scopes, keeps) && AllTrusted(scopes, moved)
      modifies n, this
      ensures r.Valid() && fresh(r.repr - old(n.repr)) && r.shape.SeqShape? && r.kids == [n, moved]
      ensures n.Valid() && n.kids == kept && n.shape == old(n.shape)
      ensures keeps.Valid() && moved.Valid() && keeps.Tree() == old(keeps.Tree())
      ensures sound ==> AllTrusted(old(scopes), keeps) && AllTrusted(old(scopes), moved)
      ensures r.Tree() == Seq([If(old(n.shape.cond), trees[0], trees[1]), old(moved.Tree())])
      ensures r in scopes && scopes[r] == old(scopes)[n] && r in weights && weights[r] == old(weights)[n]
      ensures Extends(old(scopes), scopes) && Extends(old(weights), weights)
    {
      r := MoveKeeping(n, kept, keeps, moved, trees, sound);
    }

    method MoveKeeping(n: Node, kept: seq<Node?>, keeps: Node, moved: Node, ghost trees: seq<Ast>, ghost sound: bool)
      returns (r: Node)
      requires n.Valid() && n.shape.IfShape? && n in scopes && n in weights && keeps in n.kids && moved in n.kids
      requires AreKids(kept, trees, n.repr - {n} - moved.repr) && |kept| == 2
      requires sound ==> AllTrusted(scopes, keeps)
      modifies n, this
      ensures r.Valid() && fresh(r.repr - old(n.repr)) && r.shape.SeqShape? && r.kids == [n, moved]
      ensures n.Valid() && n.kids == kept && n.shape == old(n.shape)
      ensures keeps.Valid() && keeps.Tree() == old(keeps.Tree()) && (sound ==> AllTrusted(old(scopes), keeps))
      ensures r.Tree() == Seq([If(old(n.shape.cond), trees[0], trees[1]), old(moved.Tree())])
      ensures r in scopes && scopes[r] == old(scopes)[n] && r in weights && weights[r] == old(weights)[n]
      ensures Extends(old(scopes), scopes) && Extends(old(weights), weights)
    {
      r := MoveBehind(n, kept, moved, trees);
      assert r.kids[0] == n;
    }

    /** The `if` keeps the branch in `kept`, and the other one follows it in a new
        sequence. The maps know the sequence as the `if`, whose own entry is copied after
        it has lost the branch. */
    method MoveBehind(n: Node, kept: seq<Node?>, moved: Node, ghost trees: seq<Ast>) returns (r: Node)
      requires n.Valid() && n.shape.IfShape? && n in scopes && n in weights
      requires AreKids(n.kids, n.trees, n.repr - {n}) && |kept| == 2 && moved in n.kids
      requires AreKids(kept, trees, n.repr - {n} - moved.repr)
      modifies n, this
      ensures r.Valid() && fresh(r) && fresh(r.repr - old(n.repr)) && r.shape.SeqShape? && r.kids == [n, moved]
      ensures n.kids == kept && n.shape == old(n.shape)
      ensures r.Tree() == Seq([If(old(n.shape.cond), trees[0], trees[1]), old(moved.Tree())])
      ensures r in scopes && scopes[r] == old(scopes)[n] && r in weights && weights[r] == old(weights)[n]
      ensures Extends(old(scopes), scopes) && Extends(old(weights), weights)
    {
      r := Split(n, kept, moved, trees);
      scopes := scopes[r := scopes[n]];
      weights := weights[r := weights[n]];
    }

    method Split(n: Node, kept: seq<Node?>, moved: Node, ghost trees: seq<Ast>) returns (r: Node)
      requires n.Valid() && n.shape.IfShape? && |kept| == 2 && moved in n.kids
      requires AreKids(kept, trees, n.repr - {n} - moved.repr)
      modifies n
      ensures fresh(r) && r.Valid() && r.repr == {r} + old(n.repr) && r.shape.SeqShape? && r.kids == [n, moved]
      ensures n.kids == kept && n.shape == old(n.shape)
      ensures r.Tree() == Seq([If(old(n.shape.cond), trees[0], trees[1]), old(moved.Tree())])
    {
      ghost var all := n.repr;
      n.kids := kept;
      n.Refresh(trees, all - {n} - moved.repr);
      r := Pair(n, moved, all);
    }

    method Pair(a: Node, b: Node, ghost below: set<Node>) returns (r: Node)
      requires a.Valid() && b.Valid() && a.repr !! b.repr && a.repr + b.repr <= below
      ensures fresh(r) && r.Valid() && r.repr == {r} + below && r.Tree() == Seq([a.Tree(), b.Tree()])
      ensures r.shape.SeqShape? && r.kids == [a, b]
    {
      r := new Node(SeqShape, [a, b], [a.Tree(), b.Tree()], below);
    }
  }

  lemma {:induction false} KidsWait(scopes: Scopes, weights: Weights, n: Node)
    requires n.Valid() && Knows(scopes, n) && WeighsBelow(weights, n)
    ensures AreKids(n.kids, n.trees, n.repr - {n}) && Waiting(scopes, weights, n.kids, 0, n.repr - {n})
  {
  }

  /** Soundness of the entries after a branch has been moved, from that before. */
  lemma {:induction false} MovedSoundly(a: Scopes, b: Scopes, r: Node, n: Node, kept: Node, moved: Node, before: Ast)
    requires r.Valid() && n.Valid() && kept.Valid() && moved.Valid() && r.shape.SeqShape? && r.kids == [n, moved]
    requires n.shape.IfShape? && (n.kids == [kept, null] || n.kids == [null, kept])
    requires AllTrusted(a, kept) && AllTrusted(a, moved) && Extends(a, b)
    requires n in a && r in b && a[n] == ScopeOf(before) == b[r]
    requires Analysable(before) && before.If? && r.Tree() == Promote(before)
    requires kept.Tree() == Promote(before.thn) || kept.Tree() == Promote(before.els)
    ensures AllTrusted(b, r)
  {
    StillTrusted(a, b, kept);
    StillTrusted(a, b, moved);
    if !ScopeOf(before).FallsThrough? { BranchesNeverFall(before.cond, before.thn, before.els); }
    MovedIsTrusted(b, r, n, kept, moved, before);
  }

  method Analyse(root: Node) returns (scopes: Scopes, weights: Weights)
    requires root.Valid()
    ensures Knows(scopes, root) && Weighs(weights, root)
  {
    scopes := ComputeFallThroughScope(root);
    weights := AnalyseWeights(root);
  }

  method AnalyseWeights(root: Node) returns (weights: Weights)
    requires root.Valid()
    ensures Weighs(weights, root)
  {
    var computation := new NodeWeightComputation();
    var w := computation.Compute(root);
    weights := computation.weights[root := w];
    BelowIsWeighed(computation.weights, weights, root);
  }

  /** The analysis, the weights, the promotion and the collapsing behind it. */
  method PromoteNoFallthroughIf(root: Node) returns (r: Node, scopes: Scopes)
    requires root.Valid() && Analysable(root.Tree())
    modifies root.repr
    ensures r.Valid() && r.Tree() == Collapse(Promote(old(root.Tree())))
    ensures forall w: World :: Equivalent(w, old(root.Tree()), r.Tree())
    ensures r in scopes && (!scopes[r].FallsThrough? ==> forall w: World :: NeverFalls(w, r.Tree()))
  {
    ghost var before := root.Tree();
    r, scopes := PromoteRoot(root);
    CollapseSequences(r);
    PromotedIsSound(before);
  }

  method PromoteRoot(root: Node) returns (r: Node, scopes: Scopes)
    requires root.Valid()
    modifies root.repr
    ensures r.Valid() && fresh(r.repr - old(root.repr)) && r.Tree() == Promote(old(root.Tree()))
    ensures r in scopes && scopes[r] == ScopeOf(old(root.Tree()))
    ensures old(Analysable(root.Tree())) ==> AllTrusted(scopes, r)
  {
    var types, weights := Analyse(root);
    var promotion := new FallThroughPromotion(types, weights);
    r := promotion.PromoteNode(root);
    scopes := promotion.scopes;
  }

  lemma {:induction false} PromotedIsSound(a: Ast)
    requires Analysable(a)
    ensures forall w: World :: Equivalent(w, a, Collapse(Promote(a)))
    ensures !ScopeOf(a).FallsThrough? ==> forall w: World :: NeverFalls(w, Collapse(Promote(a)))
  {
    var b := Collapse(Promote(a));
    forall w: World ensures Equivalent(w, a, b) && (!ScopeOf(a).FallsThrough? ==> NeverFalls(w, b)) {
      PromotePreserves(w, a);
      CollapsePreserves(w, Promote(a));
      EquivalentTrans(w, a, Promote(a), b);
      if !ScopeOf(a).FallsThrough? {
        NonFallingNeverFalls(w, a);
        EquivalentNeverFalls(w, a, b);
      }
    }
  }
}

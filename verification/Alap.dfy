/** As-late-as-possible placement of variable declarations: every variable goes to
    the deepest node of the GHAST from which all its uses are reachable. */
module Alap {
  import opened Wrappers
  import opened Ghast
  import opened ScopeTree

  // ----- The scope graph, as it is built -----

  type Successors = map<nat, seq<nat>>

  predicate Links(s: Successors, x: nat, y: nat) {
    x in s && y in s[x]
  }

  /** Up to label `hi`, the nodes and edges of `a` have been added to `before`. */
  ghost predicate Built(before: Successors, s: Successors, a: Ast, k: nat, hi: nat) {
    && (forall x :: x in s <==> x in before || k <= x < hi)
    && (forall x: nat, y: nat :: Links(s, x, y) <==> Links(before, x, y) || (y < hi && Edge(a, k, x, y)))
  }

  /** The edges to nodes of one kid are its own and the one that leads to it. */
  lemma {:induction false} EdgeOfKid(a: Ast, k: nat, i: nat, x: nat, y: nat)
    requires Rooted(a, k) && i < |Kids(a, k)| && Inside(Kids(a, k)[i].tree, Kids(a, k)[i].at, y)
    ensures var kid := Kids(a, k)[i];
            Edge(a, k, x, y) <==> Edge(kid.tree, kid.at, x, y) || (x == kid.pred && y == kid.at)
  {
    KidIsRooted(a, k, i, y);
  }

  lemma {:induction false} KidIsAdded(before: Successors, s0: Successors, s1: Successors, a: Ast, k: nat, i: nat)
    requires Rooted(a, k) && i < |Kids(a, k)|
    requires var kid := Kids(a, k)[i];
             && Built(before, s0, a, k, kid.at) && Built(s0, s1, kid.tree, kid.at, kid.at + Size(kid.tree))
             && k <= kid.pred < kid.at
    ensures var kid := Kids(a, k)[i];
            && kid.pred in s1
            && Built(before, s1[kid.pred := s1[kid.pred] + [kid.at]], a, k, kid.at + Size(kid.tree))
  {
    var kid := Kids(a, k)[i];
    var hi := kid.at + Size(kid.tree);
    var s2 := s1[kid.pred := s1[kid.pred] + [kid.at]];
    forall x: nat, y: nat
      ensures Links(s2, x, y) <==> Links(before, x, y) || (y < hi && Edge(a, k, x, y))
    {
      assert Links(s2, x, y) <==> Links(s1, x, y) || (x == kid.pred && y == kid.at);
      if Inside(kid.tree, kid.at, y) { EdgeOfKid(a, k, i, x, y); }
    }
  }

  /** Where the labels of kid `i` start, or where the last kid ends. */
  function Start(kids: seq<Kid>, k: nat, i: nat): nat {
    if i < |kids| then kids[i].at else if kids == [] then k + 1 else kids[|kids| - 1].at + Size(kids[|kids| - 1].tree)
  }

  lemma {:induction false} StartsAndEnds(a: Ast, k: nat, i: nat)
    requires Rooted(a, k)
    ensures var kids := Kids(a, k);
            && Start(kids, k, 0) == k + 1 && Start(kids, k, |kids|) == k + Size(a)
            && (i < |kids| ==> (
                  && Rooted(kids[i].tree, kids[i].at) && k <= kids[i].pred < kids[i].at
                  && k < kids[i].at && kids[i].at + Size(kids[i].tree) == Start(kids, k, i + 1) <= k + Size(a)))
  {
    KidsTile(a, k);
    var kids, hi := Kids(a, k), k + Size(a);
    if i < |kids| {
      TilesBounds(kids, k, k + 1, hi, i);
      PredIsBefore(kids, k, hi, i);
      if i + 1 < |kids| { assert Adjacent(kids, i); }
    }
  }

  lemma {:induction false} RootIsAdded(before: Successors, a: Ast, k: nat)
    requires k !in before
    ensures Built(before, before[k := []], a, k, k + 1)
  {
  }

  lemma {:induction false} KidIsFresh(before: Successors, s: Successors, a: Ast, k: nat, kid: Kid)
    requires Built(before, s, a, k, kid.at) && forall x :: x in before ==> !Inside(a, k, x)
    requires k < kid.at && kid.at + Size(kid.tree) <= k + Size(a)
    ensures forall x :: x in s ==> !Inside(kid.tree, kid.at, x)
  {
  }

  class ScopeGraph {
    var successors: Successors

    constructor ()
      ensures successors == map[]
    {
      successors := map[];
    }

    method AddSuccessor(x: nat, y: nat)
      requires x in successors
      modifies this
      ensures successors == old(successors)[x := old(successors)[x] + [y]]
    {
      successors := successors[x := successors[x] + [y]];
    }

    /** Adds the nodes of `a`, with exactly the edges of the tree. */
    method BuildNode(a: Ast, k: nat)
      requires Rooted(a, k) && forall x :: x in successors ==> !Inside(a, k, x)
      modifies this
      ensures Built(old(successors), successors, a, k, k + Size(a))
      decreases a
    {
      RootIsAdded(successors, a, k);
      StartsAndEnds(a, k, 0);
      successors := successors[k := []];
      var kids := Kids(a, k);
      var i := 0;
      while i < |kids|
        invariant 0 <= i <= |kids|
        invariant Built(old(successors), successors, a, k, Start(kids, k, i))
      {
        StartsAndEnds(a, k, i);
        KidIsFresh(old(successors), successors, a, k, kids[i]);
        ghost var start := successors;
        BuildNode(kids[i].tree, kids[i].at);
        KidIsAdded(old(successors), start, successors, a, k, i);
        AddSuccessor(kids[i].pred, kids[i].at);
        i := i + 1;
      }
    }
  }

  // ----- Which nodes use a block -----

  function Ids(bs: seq<Block>): set<nat> {
    set b | b in bs :: b.id
  }

  /** The blocks whose values node `a` itself prints or tests. */
  function NodeBlocks(a: Ast): set<nat> {
    match a
    case Code(bb, _, _) => {bb.id}
    case If(cond, _, _) => {cond.origin.id} + Ids(Blocks(cond.expr))
    case Scs(kind, _) => if kind.WhileTrue? then {} else Ids(Blocks(kind.related.expr))
    case Switch(on, _, _, _) => if on.OfValue? then {on.bb.id} else {}
    case Continue(computation, _) => if computation.Computes? then Ids(Blocks(computation.cond.expr)) else {}
    case _ => {}
  }

  function OwnPairs(a: Ast, k: nat): set<(nat, nat)> {
    set b | b in NodeBlocks(a) :: (b, k)
  }

  /** Block and node, for every node of `a`. */
  function Pairs(a: Ast, k: nat): set<(nat, nat)>
    decreases a, 0
  {
    OwnPairs(a, k) + KidPairs(a, k, Kids(a, k), |Kids(a, k)|)
  }

  function KidPairs(a: Ast, k: nat, kids: seq<Kid>, n: nat): set<(nat, nat)>
    requires n <= |kids| && forall i :: 0 <= i < |kids| ==> kids[i].tree < a
    decreases a, 0, n
  {
    if n == 0 then {} else KidPairs(a, k, kids, n - 1) + Pairs(kids[n - 1].tree, kids[n - 1].at)
  }

  lemma {:induction false} OneMoreKid(a: Ast, k: nat, kids: seq<Kid>, i: nat)
    requires i < |kids| && forall i :: 0 <= i < |kids| ==> kids[i].tree < a
    ensures KidPairs(a, k, kids, i + 1) == KidPairs(a, k, kids, i) + Pairs(kids[i].tree, kids[i].at)
  {
  }

  lemma {:induction false} Joined<T>(s: set<T>, t: set<T>, u: set<T>)
    ensures s + (t + u) == (s + t) + u
  {
  }

  lemma {:induction false} JoinKid(a: Ast, k: nat, kids: seq<Kid>, i: nat, s: set<(nat, nat)>)
    requires i < |kids| && forall i :: 0 <= i < |kids| ==> kids[i].tree < a
    ensures s + KidPairs(a, k, kids, i + 1) == (s + KidPairs(a, k, kids, i)) + Pairs(kids[i].tree, kids[i].at)
  {
    OneMoreKid(a, k, kids, i);
    Joined(s, KidPairs(a, k, kids, i), Pairs(kids[i].tree, kids[i].at));
  }

  lemma {:induction false} KidAtIsRooted(a: Ast, k: nat, i: nat)
    requires Rooted(a, k) && i < |Kids(a, k)|
    ensures Rooted(Kids(a, k)[i].tree, Kids(a, k)[i].at)
  {
    StartsAndEnds(a, k, i);
  }

  class BlockToNode {
    var pairs: set<(nat, nat)>

    constructor ()
      ensures pairs == {}
    {
      pairs := {};
    }

    method Compute(a: Ast, k: nat)
      requires Rooted(a, k)
      modifies this
      ensures pairs == old(pairs) + Pairs(a, k)
      decreases a
    {
      ghost var before := pairs;
      pairs := pairs + OwnPairs(a, k);
      ghost var here := pairs;
      var kids := Kids(a, k);
      for i := 0 to |kids|
        invariant pairs == here + KidPairs(a, k, kids, i)
      {
        KidAtIsRooted(a, k, i);
        JoinKid(a, k, kids, i, here);
        Compute(kids[i].tree, kids[i].at);
      }
      Joined(before, OwnPairs(a, k), KidPairs(a, k, kids, |kids|));
    }
  }

  lemma {:induction false} KidPairsHas(a: Ast, k: nat, kids: seq<Kid>, n: nat, i: nat)
    requires i < n <= |kids| && forall i :: 0 <= i < |kids| ==> kids[i].tree < a
    ensures Pairs(kids[i].tree, kids[i].at) <= KidPairs(a, k, kids, n)
  {
    OneMoreKid(a, k, kids, n - 1);
    if i < n - 1 { KidPairsHas(a, k, kids, n - 1, i); }
  }

  lemma {:induction false} OwnIsInside(a: Ast, k: nat)
    requires Rooted(a, k)
    ensures forall p :: p in OwnPairs(a, k) ==> Inside(a, k, p.1)
  {
    StartsAndEnds(a, k, 0);
  }

  lemma {:induction false} KidIsInside(a: Ast, k: nat, i: nat, pairs: set<(nat, nat)>)
    requires Rooted(a, k) && i < |Kids(a, k)|
    requires var kid := Kids(a, k)[i]; forall p :: p in pairs ==> Inside(kid.tree, kid.at, p.1)
    ensures forall p :: p in pairs ==> Inside(a, k, p.1)
  {
    StartsAndEnds(a, k, i);
  }

  lemma {:induction false} PairsAreInside(a: Ast, k: nat)
    requires Rooted(a, k)
    ensures forall p :: p in Pairs(a, k) ==> Inside(a, k, p.1)
    decreases a, 0
  {
    KidPairsAreInside(a, k, |Kids(a, k)|);
    OwnIsInside(a, k);
  }

  lemma {:induction false} KidPairsAreInside(a: Ast, k: nat, n: nat)
    requires Rooted(a, k) && n <= |Kids(a, k)|
    ensures forall p :: p in KidPairs(a, k, Kids(a, k), n) ==> Inside(a, k, p.1)
    decreases a, 0, n
  {
    if n > 0 {
      var kid := Kids(a, k)[n - 1];
      StartsAndEnds(a, k, n - 1);
      OneMoreKid(a, k, Kids(a, k), n - 1);
      KidPairsAreInside(a, k, n - 1);
      PairsAreInside(kid.tree, kid.at);
      KidIsInside(a, k, n - 1, Pairs(kid.tree, kid.at));
    }
  }

  /** The nodes that use `v`, given the variables that each block uses. */
  type Uses = nat -> set<nat>

  function UsageNodes(pairs: set<(nat, nat)>, uses: Uses, v: nat): (r: set<nat>)
    ensures forall p :: p in pairs && v in uses(p.0) ==> p.1 in r
  {
    set p | p in pairs && v in uses(p.0) :: p.1
  }

  // ----- Assigning each variable to a node -----

  /** `d` is above all of `nodes`. */
  predicate Covers(a: Ast, k: nat, d: nat, nodes: set<nat>)
    requires Rooted(a, k) && forall n :: n in nodes ==> Inside(a, k, n)
  {
    forall n :: n in nodes ==> Above(a, k, d, n)
  }

  /** The deepest node from which all of `nodes` can be reached. */
  ghost predicate IsDeepest(a: Ast, k: nat, d: nat, nodes: set<nat>)
    requires Rooted(a, k) && forall n :: n in nodes ==> Inside(a, k, n)
  {
    && Inside(a, k, d)
    && (forall n :: n in nodes ==> Reaches(a, k, d, n))
    && (forall e :: Inside(a, k, e) && (forall n :: n in nodes ==> Reaches(a, k, e, n)) ==> Reaches(a, k, e, d))
  }

  /** Every node once, after all the nodes that its edges lead to. */
  ghost predicate IsPostOrder(a: Ast, k: nat, order: seq<nat>) {
    && (forall n :: n in order <==> Inside(a, k, n))
    && (forall i, j :: 0 <= i < j < |order| ==> order[i] != order[j])
    && (forall i, j :: 0 <= i < |order| && 0 <= j < |order| && Edge(a, k, order[i], order[j]) ==> j < i)
  }

  lemma {:induction false} PostOrderExists(a: Ast, k: nat)
    requires Rooted(a, k)
    ensures exists order :: IsPostOrder(a, k, order)
  {
    var order := seq(Size(a), i requires 0 <= i < Size(a) => k + Size(a) - 1 - i);
    forall n | Inside(a, k, n) ensures n in order {
      assert order[k + Size(a) - 1 - n] == n;
    }
    forall i, j | 0 <= i < |order| && 0 <= j < |order| && Edge(a, k, order[i], order[j]) ensures j < i {
      ParentIsBefore(a, k, order[j]);
    }
    assert IsPostOrder(a, k, order);
  }

  /** The position of the first node in `order` that covers `nodes`. */
  function FirstCover(a: Ast, k: nat, order: seq<nat>, nodes: set<nat>): (i: nat)
    requires Rooted(a, k) && forall n :: n in nodes ==> Inside(a, k, n)
    ensures i <= |order|
    ensures i < |order| ==> Covers(a, k, order[i], nodes)
    ensures forall j :: 0 <= j < i ==> !Covers(a, k, order[j], nodes)
  {
    if order == [] || Covers(a, k, order[0], nodes) then 0 else 1 + FirstCover(a, k, order[1..], nodes)
  }

  lemma {:induction false} AboveComesLater(a: Ast, k: nat, order: seq<nat>, i: nat, j: nat)
    requires Rooted(a, k) && IsPostOrder(a, k, order) && i < |order| && j < |order|
    requires Inside(a, k, order[i]) && Above(a, k, order[j], order[i]) && i != j
    ensures i < j
    decreases order[i]
  {
    var n := order[i];
    ParentIsBefore(a, k, n);
    var p := Parent(a, k, n);
    assert p in order;
    var q :| 0 <= q < |order| && order[q] == p;
    assert Edge(a, k, order[q], order[i]);
    if q != j { AboveComesLater(a, k, order, q, j); }
  }

  /** In a post order, the first node from which all uses can be reached is the
      deepest one; there is one for every variable that is used at all. */
  lemma {:induction false} FirstCoverIsDeepest(a: Ast, k: nat, order: seq<nat>, nodes: set<nat>)
    requires Rooted(a, k) && IsPostOrder(a, k, order) && nodes != {} && forall n :: n in nodes ==> Inside(a, k, n)
    ensures FirstCover(a, k, order, nodes) < |order|
    ensures IsDeepest(a, k, order[FirstCover(a, k, order, nodes)], nodes)
  {
    var i := FirstCover(a, k, order, nodes);
    forall n | n in nodes ensures Above(a, k, k, n) { RootIsAbove(a, k, n); }
    assert k in order && Covers(a, k, k, nodes);
    var r :| 0 <= r < |order| && order[r] == k;
    assert i <= r;
    var d := order[i];
    assert d in order;
    forall n | n in nodes ensures Reaches(a, k, d, n) { DominanceIsReachability(a, k, d, n); }
    forall e | Inside(a, k, e) && (forall n :: n in nodes ==> Reaches(a, k, e, n)) ensures Reaches(a, k, e, d) {
      forall n | n in nodes ensures Above(a, k, e, n) { DominanceIsReachability(a, k, e, n); }
      CoversAreOrdered(a, k, order, nodes, i, e);
      DominanceIsReachability(a, k, e, d);
    }
  }

  lemma {:induction false} CoversAreOrdered(a: Ast, k: nat, order: seq<nat>, nodes: set<nat>, i: nat, e: nat)
    requires Rooted(a, k) && IsPostOrder(a, k, order) && nodes != {} && forall n :: n in nodes ==> Inside(a, k, n)
    requires i < |order| && Inside(a, k, order[i]) && Inside(a, k, e)
    requires Covers(a, k, order[i], nodes) && Covers(a, k, e, nodes)
    requires forall j :: 0 <= j < i ==> !Covers(a, k, order[j], nodes)
    ensures Above(a, k, e, order[i])
  {
    var d := order[i];
    var n :| n in nodes;
    assert e in order;
    var j :| 0 <= j < |order| && order[j] == e;
    if e <= d {
      AboveIsAChain(a, k, e, d, n);
    } else {
      AboveIsAChain(a, k, d, e, n);
      AboveComesLater(a, k, order, j, i);
    }
  }

  /** The variables declared at `n`. */
  function At(result: map<nat, set<nat>>, n: nat): set<nat> {
    if n in result then result[n] else {}
  }

  ghost predicate ValidUsages(a: Ast, k: nat, usages: map<nat, set<nat>>) {
    forall v, n :: v in usages && n in usages[v] ==> Inside(a, k, n)
  }

  /** When the first `i` nodes have been visited, a pending variable `v` is still
      waiting, or it has been assigned and replaced by a tombstone. */
  ghost predicate Assigned(a: Ast, k: nat, order: seq<nat>, usages: map<nat, set<nat>>, v: Option<nat>,
                           now: Option<nat>, i: nat)
    requires Rooted(a, k) && ValidUsages(a, k, usages) && (v.Some? ==> v.value in usages)
  {
    if v.Some? && i <= FirstCover(a, k, order, usages[v.value]) then now == v else now.None?
  }

  /** `result` holds exactly the variables behind the tombstones, at their nodes. */
  ghost predicate Recorded(a: Ast, k: nat, order: seq<nat>, usages: map<nat, set<nat>>,
                           vars: seq<Option<nat>>, pending: seq<Option<nat>>, result: map<nat, set<nat>>)
    requires Rooted(a, k) && ValidUsages(a, k, usages) && |vars| == |pending|
    requires forall p :: 0 <= p < |vars| && vars[p].Some? ==> vars[p].value in usages
  {
    forall n, v :: v in At(result, n) <==>
      exists p :: 0 <= p < |vars| && vars[p] == Some(v) && pending[p].None? && IsFirst(a, k, order, usages[v], n)
  }

  lemma {:induction false} NothingRecorded(a: Ast, k: nat, order: seq<nat>, usages: map<nat, set<nat>>,
                                           vars: seq<Option<nat>>)
    requires Rooted(a, k) && ValidUsages(a, k, usages)
    requires forall p :: 0 <= p < |vars| && vars[p].Some? ==> vars[p].value in usages
    ensures Recorded(a, k, order, usages, vars, vars, map[])
  {
    forall n, v ensures v !in At(map[], n) {
    }
  }

  predicate IsFirst(a: Ast, k: nat, order: seq<nat>, nodes: set<nat>, n: nat)
    requires Rooted(a, k) && forall m :: m in nodes ==> Inside(a, k, m)
  {
    var i := FirstCover(a, k, order, nodes);
    i < |order| && order[i] == n
  }

  lemma {:induction false} FirstIsUnique(a: Ast, k: nat, order: seq<nat>, nodes: set<nat>, i: nat)
    requires Rooted(a, k) && IsPostOrder(a, k, order) && forall m :: m in nodes ==> Inside(a, k, m)
    requires i < |order| && i <= FirstCover(a, k, order, nodes)
    ensures Covers(a, k, order[i], nodes) <==> FirstCover(a, k, order, nodes) == i
    ensures IsFirst(a, k, order, nodes, order[i]) <==> FirstCover(a, k, order, nodes) == i
  {
  }

  /** Assigning one variable keeps the record. */
  lemma {:induction false} RecordOne(a: Ast, k: nat, order: seq<nat>, usages: map<nat, set<nat>>,
                                     vars: seq<Option<nat>>,
                                     pending: seq<Option<nat>>, result: map<nat, set<nat>>, p: nat, n: nat)
    requires Rooted(a, k) && ValidUsages(a, k, usages) && p < |vars| == |pending|
    requires forall q :: 0 <= q < |vars| && vars[q].Some? ==> vars[q].value in usages
    requires Recorded(a, k, order, usages, vars, pending, result)
    requires vars[p].Some? && pending[p] == vars[p] && IsFirst(a, k, order, usages[vars[p].value], n)
    ensures var v := vars[p].value;
            Recorded(a, k, order, usages, vars, pending[p := None], result[n := At(result, n) + {v}])
  {
    var v := vars[p].value;
    var pending2, result2 := pending[p := None], result[n := At(result, n) + {v}];
    forall m, x
      ensures x in At(result2, m) <==>
              exists q ::
                0 <= q < |vars| && vars[q] == Some(x) && pending2[q].None? && IsFirst(a, k, order, usages[x], m)
    {
      if x in At(result, m) {
        var q :| 0 <= q < |vars| && vars[q] == Some(x) && pending[q].None? && IsFirst(a, k, order, usages[x], m);
        assert pending2[q].None?;
      }
      if x == v && m == n { assert pending2[p].None?; }
      if q :| 0 <= q < |vars| && vars[q] == Some(x) && pending2[q].None? && IsFirst(a, k, order, usages[x], m) {
        if q != p { assert pending[q].None?; }
      }
    }
  }

  /** The variables that can still be assigned are tried on the node at position `i`. */
  method VisitNode(a: Ast, k: nat, order: seq<nat>, usages: map<nat, set<nat>>, pending: array<Option<nat>>, i: nat,
                   before: map<nat, set<nat>>, ghost vars: seq<Option<nat>>)
    returns (result: map<nat, set<nat>>)
    requires Rooted(a, k) && ValidUsages(a, k, usages) && IsPostOrder(a, k, order) && i < |order|
    requires |vars| == pending.Length && forall p :: 0 <= p < |vars| && vars[p].Some? ==> vars[p].value in usages
    requires forall p :: 0 <= p < |vars| ==> Assigned(a, k, order, usages, vars[p], pending[p], i)
    requires Recorded(a, k, order, usages, vars, pending[..], before)
    modifies pending
    ensures forall p :: 0 <= p < |vars| ==> Assigned(a, k, order, usages, vars[p], pending[p], i + 1)
    ensures Recorded(a, k, order, usages, vars, pending[..], result)
  {
    ghost var next := i + 1;
    result := before;
    var j := 0;
    while j < pending.Length
      invariant 0 <= j <= pending.Length
      invariant forall p :: 0 <= p < j ==> Assigned(a, k, order, usages, vars[p], pending[p], next)
      invariant forall p :: j <= p < |vars| ==> Assigned(a, k, order, usages, vars[p], pending[p], i)
      invariant Recorded(a, k, order, usages, vars, pending[..], result)
    {
      assert Assigned(a, k, order, usages, vars[j], pending[j], i);
      if pending[j].Some? {
        var v := pending[j].value;
        FirstIsUnique(a, k, order, usages[v], i);
        if Covers(a, k, order[i], usages[v]) {
          RecordOne(a, k, order, usages, vars, pending[..], result, j, order[i]);
          result := result[order[i] := At(result, order[i]) + {v}];
          ghost var was := pending[..];
          pending[j] := None;
          assert pending[..] == was[j := None];
        }
      }
      j := j + 1;
    }
  }

  /** `v` is assigned to one node only. */
  ghost predicate OnePlace(result: map<nat, set<nat>>, v: nat) {
    exists n :: v in At(result, n) && forall m :: v in At(result, m) ==> m == n
  }

  /** The post-order loop: every variable is assigned, to one node only, the deepest
      from which all its uses can be reached. */
  method ComputeVarDeclMap(a: Ast, k: nat, order: seq<nat>, usages: map<nat, set<nat>>, pending: array<Option<nat>>)
    returns (result: map<nat, set<nat>>)
    requires Rooted(a, k) && ValidUsages(a, k, usages) && IsPostOrder(a, k, order)
    requires forall p :: 0 <= p < pending.Length && pending[p].Some? ==>
               pending[p].value in usages && usages[pending[p].value] != {}
    modifies pending
    ensures forall p :: 0 <= p < pending.Length ==> pending[p].None?
    ensures forall n, v :: v in At(result, n) ==> Some(v) in old(pending[..]) && IsDeepest(a, k, n, usages[v])
    ensures forall v :: Some(v) in old(pending[..]) ==> OnePlace(result, v)
  {
    ghost var vars := pending[..];
    result := map[];
    NothingRecorded(a, k, order, usages, vars);
    var i := 0;
    while i < |order|
      invariant 0 <= i <= |order|
      invariant forall p :: 0 <= p < |vars| ==> Assigned(a, k, order, usages, vars[p], pending[p], i)
      invariant Recorded(a, k, order, usages, vars, pending[..], result)
    {
      result := VisitNode(a, k, order, usages, pending, i, result, vars);
      i := i + 1;
    }
    AllAssigned(a, k, order, usages, vars, pending[..], result);
  }

  lemma {:induction false} AllAssigned(a: Ast, k: nat, order: seq<nat>, usages: map<nat, set<nat>>,
                                       vars: seq<Option<nat>>, pending: seq<Option<nat>>, result: map<nat, set<nat>>)
    requires Rooted(a, k) && ValidUsages(a, k, usages) && IsPostOrder(a, k, order) && |vars| == |pending|
    requires forall p :: 0 <= p < |vars| && vars[p].Some? ==> vars[p].value in usages && usages[vars[p].value] != {}
    requires forall p :: 0 <= p < |vars| ==> Assigned(a, k, order, usages, vars[p], pending[p], |order|)
    requires Recorded(a, k, order, usages, vars, pending, result)
    ensures forall p :: 0 <= p < |vars| ==> pending[p].None?
    ensures forall n, v :: v in At(result, n) ==> Some(v) in vars && IsDeepest(a, k, n, usages[v])
    ensures forall v :: Some(v) in vars ==> OnePlace(result, v)
  {
    forall p | 0 <= p < |vars| ensures pending[p].None? {
      assert Assigned(a, k, order, usages, vars[p], pending[p], |order|);
      if vars[p].Some? { FirstCoverIsDeepest(a, k, order, usages[vars[p].value]); }
    }
    forall n, v | v in At(result, n) ensures Some(v) in vars && IsDeepest(a, k, n, usages[v]) {
      var p :| 0 <= p < |vars| && vars[p] == Some(v) && pending[p].None? && IsFirst(a, k, order, usages[v], n);
      FirstCoverIsDeepest(a, k, order, usages[v]);
    }
    forall v | Some(v) in vars ensures OnePlace(result, v) {
      var p :| 0 <= p < |vars| && vars[p] == Some(v);
      FirstCoverIsDeepest(a, k, order, usages[v]);
      var n := order[FirstCover(a, k, order, usages[v])];
      assert IsFirst(a, k, order, usages[v], n);
      assert v in At(result, n);
    }
  }
}

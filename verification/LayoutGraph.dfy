/** The graph of the data layout analysis. Every node keeps the set of its successors
    and the set of its predecessors, and the operations have to keep the two in step. */
module LayoutGraph {

  /** Offsets are unsigned 64-bit numbers; `strides` stands for the rest of an offset
      expression. */
  datatype Tag = Equality | Pointer | Instance(offset: nat, strides: seq<nat>)

  class LayoutNode {
    var successors: set<(LayoutNode, Tag)>
    var predecessors: set<(LayoutNode, Tag)>

    constructor ()
      ensures successors == {} && predecessors == {}
    {
      successors, predecessors := {}, {};
    }
  }

  type Links = set<(LayoutNode, Tag)>

  /** The sets of all nodes at one moment. */
  type Snapshot = map<LayoutNode, Links>

  type Edge = (LayoutNode, Tag, LayoutNode)

  // ----- Graphs as values -----

  /** Predecessors mirror successors, no edge leaves the graph, and there are no
      self edges. */
  ghost predicate Consistent(nodes: set<LayoutNode>, succ: Snapshot, pred: Snapshot) {
    && succ.Keys == nodes && pred.Keys == nodes
    && (forall n, e :: n in nodes && e in succ[n] ==> e.0 in nodes && e.0 != n && (n, e.1) in pred[e.0])
    && (forall n, e :: n in nodes && e in pred[n] ==> e.0 in nodes && e.0 != n && (n, e.1) in succ[e.0])
  }

  ghost function EdgesOf(succ: Snapshot): (r: set<Edge>) {
    set n, e | n in succ.Keys && e in succ[n] :: (n, e.1, e.0)
  }

  function Becomes(n: LayoutNode, merged: set<LayoutNode>, into: LayoutNode): LayoutNode {
    if n in merged then into else n
  }

  /** Every edge with its ends mapped through "merged node becomes `into`", except
      those that turn into self edges. */
  ghost function Quotient(edges: set<Edge>, merged: set<LayoutNode>, into: LayoutNode): set<Edge> {
    set e | e in edges && Becomes(e.0, merged, into) != Becomes(e.2, merged, into)
      :: (Becomes(e.0, merged, into), e.1, Becomes(e.2, merged, into))
  }

  lemma {:induction false} QuotientsCompose(edges: set<Edge>, merged: set<LayoutNode>, from: LayoutNode,
                                            into: LayoutNode)
    requires into !in merged && into != from
    ensures Quotient(Quotient(edges, merged, into), {from}, into) == Quotient(edges, merged + {from}, into)
  {
    var once, twice := Quotient(edges, merged, into), Quotient(edges, merged + {from}, into);
    forall e | e in twice ensures e in Quotient(once, {from}, into) {
      var d :| d in edges && Becomes(d.0, merged + {from}, into) != Becomes(d.2, merged + {from}, into)
            && e == (Becomes(d.0, merged + {from}, into), d.1, Becomes(d.2, merged + {from}, into));
      assert (Becomes(d.0, merged, into), d.1, Becomes(d.2, merged, into)) in once;
    }
    forall e | e in Quotient(once, {from}, into) ensures e in twice {
      var c :| c in once && Becomes(c.0, {from}, into) != Becomes(c.2, {from}, into)
            && e == (Becomes(c.0, {from}, into), c.1, Becomes(c.2, {from}, into));
      var d :| d in edges && Becomes(d.0, merged, into) != Becomes(d.2, merged, into)
            && c == (Becomes(d.0, merged, into), d.1, Becomes(d.2, merged, into));
    }
  }

  lemma {:induction false} NothingMerged(succ: Snapshot, pred: Snapshot, nodes: set<LayoutNode>, into: LayoutNode)
    requires Consistent(nodes, succ, pred)
    ensures Quotient(EdgesOf(succ), {}, into) == EdgesOf(succ)
  {
    var edges := EdgesOf(succ);
    forall e | e in edges ensures e in Quotient(edges, {}, into) {
      assert (Becomes(e.0, {}, into), e.1, Becomes(e.2, {}, into)) == e;
    }
  }

  /** `links` with every `from` replaced by `into`. */
  ghost function Swapped(links: Links, from: LayoutNode, into: LayoutNode): Links {
    set e | e in links :: (if e.0 == from then into else e.0, e.1)
  }

  ghost function WithoutBoth(links: Links, a: LayoutNode, b: LayoutNode): Links {
    set e | e in links && e.0 != a && e.0 != b
  }

  /** What `fixPredSucc` does to the sets of all nodes. */
  ghost predicate Fixed(before: Snapshot, after: Snapshot, from: LayoutNode, into: LayoutNode)
    requires from in before && into in before
  {
    && after.Keys == before.Keys - {from}
    && (forall n :: n in after && n != into ==> after[n] == Swapped(before[n], from, into))
    && (into in after ==> after[into] == WithoutBoth(before[into] + before[from], from, into))
  }

  /** One merge yields the quotient graph, and keeps it consistent. */
  lemma {:induction false} FixedIsConsistent(nodes: set<LayoutNode>, succ: Snapshot, pred: Snapshot, succ2: Snapshot,
                                             pred2: Snapshot, from: LayoutNode, into: LayoutNode)
    requires Consistent(nodes, succ, pred) && from in nodes && into in nodes && from != into
    requires Fixed(succ, succ2, from, into) && Fixed(pred, pred2, from, into)
    ensures Consistent(nodes - {from}, succ2, pred2)
  {
    FixedMirrors(nodes, succ, pred, succ2, pred2, from, into);
    FixedMirrors(nodes, pred, succ, pred2, succ2, from, into);
    MirrorsAreConsistent(nodes - {from}, succ2, pred2);
  }

  lemma {:induction false} MirrorsAreConsistent(nodes: set<LayoutNode>, succ: Snapshot, pred: Snapshot)
    requires succ.Keys == nodes && pred.Keys == nodes
    requires forall n, e :: n in succ && e in succ[n] ==> e.0 in pred && e.0 != n && (n, e.1) in pred[e.0]
    requires forall n, e :: n in pred && e in pred[n] ==> e.0 in succ && e.0 != n && (n, e.1) in succ[e.0]
    ensures Consistent(nodes, succ, pred)
  {
  }

  lemma {:induction false} FixedMirrors(nodes: set<LayoutNode>, succ: Snapshot, pred: Snapshot, succ2: Snapshot,
                                        pred2: Snapshot, from: LayoutNode, into: LayoutNode)
    requires Consistent(nodes, succ, pred) && from in nodes && into in nodes && from != into
    requires Fixed(succ, succ2, from, into) && Fixed(pred, pred2, from, into)
    ensures forall n, e :: n in succ2 && e in succ2[n] ==> e.0 in pred2 && e.0 != n && (n, e.1) in pred2[e.0]
  {
    forall n, e | n in succ2 && e in succ2[n] ensures e.0 in pred2 && e.0 != n && (n, e.1) in pred2[e.0] {
      if n == into {
        var origin := if e in succ[into] then into else from;
        assert e in succ[origin] && (origin, e.1) in pred[e.0];
        assert (into, e.1) in Swapped(pred[e.0], from, into);
      } else {
        var d :| d in succ[n] && e == (if d.0 == from then into else d.0, d.1);
        assert (n, d.1) in pred[d.0];
        if e.0 != into { assert (n, e.1) in Swapped(pred[e.0], from, into); }
      }
    }
  }

  lemma {:induction false} FixedEdge(nodes: set<LayoutNode>, succ: Snapshot, pred: Snapshot, succ2: Snapshot,
                                     from: LayoutNode, into: LayoutNode, n: LayoutNode, e: (LayoutNode, Tag))
    requires Consistent(nodes, succ, pred) && from in nodes && into in nodes && from != into
    requires Fixed(succ, succ2, from, into) && n in succ2 && e in succ2[n]
    ensures (n, e.1, e.0) in Quotient(EdgesOf(succ), {from}, into)
  {
    if n == into {
      var origin := if e in succ[into] then into else from;
      assert (origin, e.1, e.0) in EdgesOf(succ);
      assert (Becomes(origin, {from}, into), e.1, Becomes(e.0, {from}, into)) == (n, e.1, e.0);
    } else {
      var d :| d in succ[n] && e == (if d.0 == from then into else d.0, d.1);
      assert (n, d.1, d.0) in EdgesOf(succ);
      assert (Becomes(n, {from}, into), d.1, Becomes(d.0, {from}, into)) == (n, e.1, e.0);
    }
  }

  lemma {:induction false} QuotientEdge(nodes: set<LayoutNode>, succ: Snapshot, pred: Snapshot, succ2: Snapshot,
                                        from: LayoutNode, into: LayoutNode, c: Edge)
    requires Consistent(nodes, succ, pred) && from in nodes && into in nodes && from != into
    requires Fixed(succ, succ2, from, into) && c in Quotient(EdgesOf(succ), {from}, into)
    ensures c in EdgesOf(succ2)
  {
    var d :| d in EdgesOf(succ) && Becomes(d.0, {from}, into) != Becomes(d.2, {from}, into)
          && c == (Becomes(d.0, {from}, into), d.1, Becomes(d.2, {from}, into));
    assert (d.2, d.1) in succ[d.0];
    if d.0 == from || d.0 == into {
      assert (d.2, d.1) in succ2[into];
    } else {
      assert (c.2, d.1) in Swapped(succ[d.0], from, into);
    }
  }

  lemma {:induction false} FixedIsQuotient(nodes: set<LayoutNode>, succ: Snapshot, pred: Snapshot, succ2: Snapshot,
                                           from: LayoutNode, into: LayoutNode)
    requires Consistent(nodes, succ, pred) && from in nodes && into in nodes && from != into
    requires Fixed(succ, succ2, from, into)
    ensures EdgesOf(succ2) == Quotient(EdgesOf(succ), {from}, into)
  {
    forall c | c in EdgesOf(succ2) ensures c in Quotient(EdgesOf(succ), {from}, into) {
      FixedEdge(nodes, succ, pred, succ2, from, into, c.0, (c.2, c.1));
    }
    forall c | c in Quotient(EdgesOf(succ), {from}, into) ensures c in EdgesOf(succ2) {
      QuotientEdge(nodes, succ, pred, succ2, from, into, c);
    }
  }

  // ----- The operations -----

  /** The inner loops of `fixPredSucc`: every link to `from` is extracted and inserted
      again as a link to `into`. */
  method Redirect(links: Links, from: LayoutNode, into: LayoutNode) returns (r: Links)
    requires from != into
    ensures r == Swapped(links, from, into)
  {
    r := links;
    var range := set e | e in links && e.0 == from;
    while range != {}
      invariant range <= r && forall e :: e in range ==> e.0 == from
      invariant forall e :: e in r && e.0 == from ==> e in range
      invariant Swapped(r, from, into) == Swapped(links, from, into)
      decreases range
    {
      var e :| e in range;
      SwapOne(r, from, into, e);
      range := range - {e};
      r := r - {e} + {(into, e.1)};
    }
    assert forall e :: e in r ==> e == (if e.0 == from then into else e.0, e.1);
    assert r == Swapped(r, from, into);
  }

  lemma {:induction false} SwapOne(r: Links, from: LayoutNode, into: LayoutNode, e: (LayoutNode, Tag))
    requires e in r && e.0 == from && from != into
    ensures Swapped(r - {e} + {(into, e.1)}, from, into) == Swapped(r, from, into)
  {
    var r2 := r - {e} + {(into, e.1)};
    assert (into, e.1) in Swapped(r, from, into);
    forall x | x in Swapped(r, from, into) ensures x in Swapped(r2, from, into) {
      var d :| d in r && x == (if d.0 == from then into else d.0, d.1);
      if d == e { assert (into, e.1) in r2; } else { assert d in r2; }
    }
    forall x | x in Swapped(r2, from, into) ensures x in Swapped(r, from, into) {
      var d :| d in r2 && x == (if d.0 == from then into else d.0, d.1);
    }
  }

  /** Only edges that leave `node` are missing from `now`. */
  ghost predicate OnlyFrom(before: set<Edge>, now: set<Edge>, node: LayoutNode) {
    now <= before && forall e :: e in before && e !in now ==> e.0 == node
  }

  lemma {:induction false} OneDropped(before: set<Edge>, now: set<Edge>, node: LayoutNode, edge: (LayoutNode, Tag))
    requires OnlyFrom(before, now, node)
    ensures OnlyFrom(before, now - {(node, edge.1, edge.0)}, node)
  {
  }

  ghost function Members(s: seq<LayoutNode>): set<LayoutNode> {
    set n | n in s
  }

  lemma {:induction false} OneMoreMember(s: seq<LayoutNode>, i: nat, nodes: set<LayoutNode>)
    requires 1 <= i < |s| && DistinctIn(s, nodes)
    ensures Members(s[1..i + 1]) == Members(s[1..i]) + {s[i]} && s[i] != s[0] && s[0] !in Members(s[1..i])
    ensures s[i] in nodes - Members(s[1..i]) && s[0] in nodes - Members(s[1..i])
  {
    assert s[1..i + 1] == s[1..i] + [s[i]];
  }

  predicate DistinctIn(s: seq<LayoutNode>, nodes: set<LayoutNode>) {
    (forall i :: 0 <= i < |s| ==> s[i] in nodes) && forall i, j :: 0 <= i < j < |s| ==> s[i] != s[j]
  }

  class LayoutTypeSystem {
    var layouts: set<LayoutNode>

    constructor ()
      ensures Valid() && layouts == {}
    {
      layouts := {};
    }

    ghost function Succ(): Snapshot
      reads this, layouts
    {
      map n | n in layouts :: n.successors
    }

    ghost function Pred(): Snapshot
      reads this, layouts
    {
      map n | n in layouts :: n.predecessors
    }

    /** `verifyConsistency`, as far as successors and predecessors go. */
    ghost predicate Valid()
      reads this, layouts
    {
      Consistent(layouts, Succ(), Pred())
    }

    ghost function Edges(): set<Edge>
      reads this, layouts
    {
      EdgesOf(Succ())
    }

    /** All the predecessors of all the successors of `from` are redirected. */
    method RedirectPredecessors(from: LayoutNode, into: LayoutNode)
      requires Valid() && from in layouts && into in layouts && from != into
      modifies layouts`predecessors
      ensures from.predecessors == old(from.predecessors)
      ensures forall n :: n in layouts && n != from ==> n.predecessors == Swapped(old(n.predecessors), from, into)
    {
      ghost var done: set<LayoutNode> := {};
      var rest := from.successors;
      while rest != {}
        invariant rest <= from.successors
        invariant forall e :: e in from.successors ==> e in rest || e.0 in done
        invariant forall n :: n in done ==> n in layouts && n != from
        invariant forall n :: n in layouts && n !in done ==> n.predecessors == old(n.predecessors)
        invariant forall n :: n in done ==> n.predecessors == Swapped(old(n.predecessors), from, into)
        decreases rest
      {
        var e :| e in rest;
        rest := rest - {e};
        var redirected := Redirect(e.0.predecessors, from, into);
        SwapTwice(old(e.0.predecessors), from, into);
        e.0.predecessors := redirected;
        done := done + {e.0};
      }
      forall n | n in layouts && n != from ensures n.predecessors == Swapped(old(n.predecessors), from, into) {
        if n !in done { SwapNothing(old(n.predecessors), from, into); }
      }
    }

    /** All the successors of all the predecessors of `from` are redirected. */
    method RedirectSuccessors(from: LayoutNode, into: LayoutNode)
      requires from in layouts && into in layouts && from != into
      requires forall e :: e in from.predecessors ==> e.0 in layouts && e.0 != from
      requires forall n, e :: n in layouts && e in n.successors && e.0 == from ==> (n, e.1) in from.predecessors
      modifies layouts`successors
      ensures from.successors == old(from.successors)
      ensures forall n :: n in layouts && n != from ==> n.successors == Swapped(old(n.successors), from, into)
    {
      ghost var done: set<LayoutNode> := {};
      var rest := from.predecessors;
      while rest != {}
        invariant rest <= from.predecessors
        invariant forall e :: e in from.predecessors ==> e in rest || e.0 in done
        invariant forall n :: n in done ==> n in layouts && n != from
        invariant forall n :: n in layouts && n !in done ==> n.successors == old(n.successors)
        invariant forall n :: n in done ==> n.successors == Swapped(old(n.successors), from, into)
        decreases rest
      {
        var e :| e in rest;
        rest := rest - {e};
        var redirected := Redirect(e.0.successors, from, into);
        SwapTwice(old(e.0.successors), from, into);
        e.0.successors := redirected;
        done := done + {e.0};
      }
      forall n | n in layouts && n != from ensures n.successors == Swapped(old(n.successors), from, into) {
        if n !in done { SwapNothing(old(n.successors), from, into); }
      }
    }

    /** Afterwards nothing refers to `from`, and its links belong to `into`. */
    method FixPredSucc(from: LayoutNode, into: LayoutNode)
      requires Valid() && from in layouts && into in layouts && from != into
      modifies layouts
      ensures Fixed(old(Succ()), Succ() - {from}, from, into)
      ensures Fixed(old(Pred()), Pred() - {from}, from, into)
    {
      RedirectPredecessors(from, into);
      RedirectSuccessors(from, into);
      SwapThenDrop(old(into.predecessors), from.predecessors, from, into);
      SwapThenDrop(old(into.successors), from.successors, from, into);
      AbsorbLinks(from, into);
      ghost var succ, pred := Succ() - {from}, Pred() - {from};
      assert forall n :: n in succ && n != into ==> succ[n] == Swapped(old(Succ())[n], from, into);
      assert forall n :: n in pred && n != into ==> pred[n] == Swapped(old(Pred())[n], from, into);
    }

    /** The links of `from` are added to those of `into`, and self edges are removed. */
    method AbsorbLinks(from: LayoutNode, into: LayoutNode)
      requires from != into
      modifies into
      ensures into.predecessors == WithoutBoth(old(into.predecessors) + from.predecessors, from, into)
      ensures into.successors == WithoutBoth(old(into.successors) + from.successors, from, into)
    {
      into.predecessors := into.predecessors + from.predecessors;
      into.successors := into.successors + from.successors;
      into.predecessors := set e | e in into.predecessors && e.0 != from && e.0 != into;
      into.successors := set e | e in into.successors && e.0 != from && e.0 != into;
    }

    /** Merging a list of distinct nodes into the first one yields exactly the
        quotient graph, without dangling references or self edges. */
    method MergeNodes(toMerge: seq<LayoutNode>)
      requires Valid() && toMerge != [] && DistinctIn(toMerge, layouts)
      modifies this, layouts
      ensures Valid() && layouts == old(layouts) - Members(toMerge[1..])
      ensures Edges() == Quotient(old(Edges()), Members(toMerge[1..]), toMerge[0])
    {
      var into := toMerge[0];
      ghost var before, all := Edges(), layouts;
      NothingMerged(Succ(), Pred(), layouts, into);
      var i := 1;
      while i < |toMerge|
        invariant 1 <= i <= |toMerge| && Valid()
        invariant layouts == all - Members(toMerge[1..i])
        invariant Edges() == Quotient(before, Members(toMerge[1..i]), into)
      {
        OneMoreMember(toMerge, i, all);
        MergeNext(toMerge[i], into, before, Members(toMerge[1..i]));
        i := i + 1;
      }
      assert toMerge[1..i] == toMerge[1..];
    }

    method MergeNext(from: LayoutNode, into: LayoutNode, ghost before: set<Edge>, ghost merged: set<LayoutNode>)
      requires Valid() && from in layouts && into in layouts && from != into && into !in merged
      requires Edges() == Quotient(before, merged, into)
      modifies this, layouts
      ensures Valid() && layouts == old(layouts) - {from}
      ensures Edges() == Quotient(before, merged + {from}, into)
    {
      MergeOne(from, into);
      QuotientsCompose(before, merged, from, into);
    }

    method MergeOne(from: LayoutNode, into: LayoutNode)
      requires Valid() && from in layouts && into in layouts && from != into
      modifies this, layouts
      ensures Valid() && layouts == old(layouts) - {from}
      ensures Edges() == Quotient(old(Edges()), {from}, into)
    {
      ghost var succ, pred := Succ(), Pred();
      FixPredSucc(from, into);
      layouts := layouts - {from};
      FixedIsConsistent(old(layouts), succ, pred, Succ(), Pred(), from, into);
      FixedIsQuotient(old(layouts), succ, pred, Succ(), from, into);
    }

    /** The node disappears with all its edges; the others stay. */
    method RemoveNode(toRemove: LayoutNode)
      requires Valid() && toRemove in layouts
      modifies this, layouts
      ensures Valid() && layouts == old(layouts) - {toRemove}
      ensures Edges() == set e | e in old(Edges()) && e.0 != toRemove && e.2 != toRemove
    {
      ghost var succ, pred := Succ(), Pred();
      ForgetInPredecessors(toRemove);
      ForgetInSuccessors(toRemove);
      layouts := layouts - {toRemove};
      Forgotten(old(layouts), succ, pred, Succ(), Pred(), toRemove);
    }

    method ForgetInPredecessors(node: LayoutNode)
      requires Valid() && node in layouts
      modifies layouts`predecessors
      ensures node.predecessors == old(node.predecessors)
      ensures forall n :: n in layouts && n != node ==> n.predecessors == Without(old(n.predecessors), node)
    {
      ghost var done: set<LayoutNode> := {};
      var rest := node.successors;
      while rest != {}
        invariant rest <= node.successors
        invariant forall e :: e in node.successors ==> e in rest || e.0 in done
        invariant forall n :: n in done ==> n in layouts && n != node
        invariant forall n :: n in layouts && n !in done ==> n.predecessors == old(n.predecessors)
        invariant forall n :: n in done ==> n.predecessors == Without(old(n.predecessors), node)
        decreases rest
      {
        var e :| e in rest;
        rest := rest - {e};
        e.0.predecessors := set p | p in e.0.predecessors && p.0 != node;
        done := done + {e.0};
      }
    }

    method ForgetInSuccessors(node: LayoutNode)
      requires node in layouts && forall e :: e in node.predecessors ==> e.0 in layouts && e.0 != node
      requires forall n, e :: n in layouts && e in n.successors && e.0 == node ==> (n, e.1) in node.predecessors
      modifies layouts`successors
      ensures node.successors == old(node.successors)
      ensures forall n :: n in layouts && n != node ==> n.successors == Without(old(n.successors), node)
    {
      ghost var done: set<LayoutNode> := {};
      var rest := node.predecessors;
      while rest != {}
        invariant rest <= node.predecessors
        invariant forall e :: e in node.predecessors ==> e in rest || e.0 in done
        invariant forall n :: n in done ==> n in layouts && n != node
        invariant forall n :: n in layouts && n !in done ==> n.successors == old(n.successors)
        invariant forall n :: n in done ==> n.successors == Without(old(n.successors), node)
        decreases rest
      {
        var e :| e in rest;
        rest := rest - {e};
        e.0.successors := set p | p in e.0.successors && p.0 != node;
        done := done + {e.0};
      }
    }

    /** Inserts an edge into both sets; a self edge breaks consistency. */
    method Insert(src: LayoutNode, tgt: LayoutNode, tag: Tag)
      requires Valid() && src in layouts && tgt in layouts
      modifies src`successors, tgt`predecessors
      ensures Valid() <==> src != tgt
      ensures Edges() == old(Edges()) + {(src, tag, tgt)}
    {
      src.successors := src.successors + {(tgt, tag)};
      tgt.predecessors := tgt.predecessors + {(src, tag)};
      assert Succ() == old(Succ())[src := old(src.successors) + {(tgt, tag)}];
      assert Pred() == old(Pred())[tgt := old(tgt.predecessors) + {(src, tag)}];
      LinkAdded(layouts, old(Succ()), old(Pred()), Succ(), Pred(), src, tag, tgt);
    }

    /** Extracts an edge from both sets. */
    method Extract(src: LayoutNode, tgt: LayoutNode, tag: Tag)
      requires Valid() && src in layouts && (tgt, tag) in src.successors
      modifies src`successors, tgt`predecessors
      ensures Valid() && src.successors == old(src.successors) - {(tgt, tag)}
      ensures Edges() == old(Edges()) - {(src, tag, tgt)}
    {
      src.successors := src.successors - {(tgt, tag)};
      tgt.predecessors := tgt.predecessors - {(src, tag)};
      assert Succ() == old(Succ())[src := old(src.successors) - {(tgt, tag)}];
      assert Pred() == old(Pred())[tgt := old(tgt.predecessors) - {(src, tag)}];
      LinkRemoved(layouts, old(Succ()), old(Pred()), Succ(), Pred(), src, tag, tgt);
    }

    /** Adds a link, unless it would be a self edge. */
    method AddLink(src: LayoutNode, tgt: LayoutNode, tag: Tag)
      requires Valid() && src in layouts && tgt in layouts
      modifies src`successors, tgt`predecessors
      ensures Valid()
      ensures Edges() == old(Edges()) + if src == tgt then {} else {(src, tag, tgt)}
    {
      if src != tgt {
        Insert(src, tgt, tag);
      }
    }

    /** Links of structs with a gigantic padding in front are not added. */
    method AddInstanceLink(src: LayoutNode, tgt: LayoutNode, offset: nat, strides: seq<nat>)
      requires Valid() && src in layouts && tgt in layouts
      modifies src`successors, tgt`predecessors
      ensures Valid()
      ensures Edges() == old(Edges())
                         + if src == tgt || offset > 0xFFFF then {} else {(src, Instance(offset, strides), tgt)}
    {
      if offset <= 0xFFFF {
        AddLink(src, tgt, Instance(offset, strides));
      }
    }

    method EraseEdge(src: LayoutNode, edge: (LayoutNode, Tag))
      requires Valid() && src in layouts && edge in src.successors
      modifies src`successors, edge.0`predecessors
      ensures Valid() && src.successors == old(src.successors) - {edge}
      ensures Edges() == old(Edges()) - {(src, edge.1, edge.0)}
    {
      Extract(src, edge.0, edge.1);
    }

    method DropOutgoingEdges(node: LayoutNode)
      requires Valid() && node in layouts
      modifies layouts
      ensures Valid()
      ensures Edges() == set e | e in old(Edges()) && e.0 != node
    {
      ghost var before := Edges();
      var rest := node.successors;
      while rest != {}
        invariant Valid() && rest == node.successors
        invariant OnlyFrom(before, Edges(), node)
        decreases rest
      {
        var edge :| edge in rest;
        rest := rest - {edge};
        ghost var now := Edges();
        EraseEdge(node, edge);
        OneDropped(before, now, node, edge);
      }
      assert forall e :: e in Edges() ==> (e.2, e.1) in e.0.successors;
    }

    /** Moves the target of the edge `(src, tag)` that comes into `oldTgt`. The graph
        stays consistent exactly when the edge is not moved onto its own source, or
        its offset changes: only the latter goes through the check for self edges. */
    method MoveEdgeTarget(oldTgt: LayoutNode, newTgt: LayoutNode, src: LayoutNode, tag: Tag, offsetToSum: int)
      requires Valid() && oldTgt in layouts && newTgt in layouts && (src, tag) in oldTgt.predecessors
      requires offsetToSum != 0 ==> tag.Instance?
      modifies layouts
      ensures Valid() <==> (offsetToSum != 0 || newTgt != src)
      ensures Edges() == old(Edges()) - {(src, tag, oldTgt)} + Moved(src, tag, newTgt, offsetToSum)
    {
      assert src in layouts && (oldTgt, tag) in src.successors;
      Extract(src, oldTgt, tag);
      if offsetToSum == 0 {
        Insert(src, newTgt, tag);
      } else {
        AddInstanceLink(src, newTgt, (tag.offset + offsetToSum) % 0x1_0000_0000_0000_0000, tag.strides);
      }
    }

    /** Moves the source of the edge `(tgt, tag)` that leaves `oldSrc`. */
    method MoveEdgeSource(oldSrc: LayoutNode, newSrc: LayoutNode, tgt: LayoutNode, tag: Tag, offsetToSum: int)
      requires Valid() && oldSrc in layouts && newSrc in layouts && (tgt, tag) in oldSrc.successors
      requires offsetToSum != 0 ==> tag.Instance?
      modifies layouts
      ensures Valid() <==> (offsetToSum != 0 || newSrc != tgt)
      ensures Edges() == old(Edges()) - {(oldSrc, tag, tgt)} + Moved(newSrc, tag, tgt, offsetToSum)
    {
      assert tgt in layouts;
      Extract(oldSrc, tgt, tag);
      if offsetToSum == 0 {
        Insert(newSrc, tgt, tag);
      } else {
        AddInstanceLink(newSrc, tgt, (tag.offset + offsetToSum) % 0x1_0000_0000_0000_0000, tag.strides);
      }
    }
  }

  lemma {:induction false} EdgeAdded(succ: Snapshot, succ2: Snapshot, src: LayoutNode, tag: Tag, tgt: LayoutNode)
    requires src in succ && succ2 == succ[src := succ[src] + {(tgt, tag)}]
    ensures EdgesOf(succ2) == EdgesOf(succ) + {(src, tag, tgt)}
  {
    forall e | e in EdgesOf(succ) + {(src, tag, tgt)} ensures e in EdgesOf(succ2) {
      assert (e.2, e.1) in succ2[e.0];
    }
    forall n, e | n in succ2 && e in succ2[n] ensures (n, e.1, e.0) in EdgesOf(succ) + {(src, tag, tgt)} {
      if e in succ[n] { assert (n, e.1, e.0) in EdgesOf(succ); }
    }
  }

  lemma {:induction false} EdgeRemoved(succ: Snapshot, succ2: Snapshot, src: LayoutNode, tag: Tag, tgt: LayoutNode)
    requires src in succ && succ2 == succ[src := succ[src] - {(tgt, tag)}]
    ensures EdgesOf(succ2) == EdgesOf(succ) - {(src, tag, tgt)}
  {
    forall e | e in EdgesOf(succ) - {(src, tag, tgt)} ensures e in EdgesOf(succ2) {
      assert (e.2, e.1) in succ2[e.0];
    }
    forall n, e | n in succ2 && e in succ2[n] ensures (n, e.1, e.0) in EdgesOf(succ) - {(src, tag, tgt)} {
      assert e in succ[n] && (n, e.1, e.0) in EdgesOf(succ);
    }
  }

  lemma {:induction false} LinkAdded(nodes: set<LayoutNode>, succ: Snapshot, pred: Snapshot, succ2: Snapshot,
                                     pred2: Snapshot, src: LayoutNode, tag: Tag, tgt: LayoutNode)
    requires Consistent(nodes, succ, pred) && src in nodes && tgt in nodes
    requires succ2 == succ[src := succ[src] + {(tgt, tag)}] && pred2 == pred[tgt := pred[tgt] + {(src, tag)}]
    ensures EdgesOf(succ2) == EdgesOf(succ) + {(src, tag, tgt)}
    ensures Consistent(nodes, succ2, pred2) <==> src != tgt
  {
    EdgeAdded(succ, succ2, src, tag, tgt);
    assert (tgt, tag) in succ2[src];
    if src != tgt { LinkIsMirrored(nodes, succ, pred, succ2, pred2, src, tag, tgt); }
  }

  lemma {:induction false} LinkIsMirrored(nodes: set<LayoutNode>, succ: Snapshot, pred: Snapshot, succ2: Snapshot,
                                          pred2: Snapshot, src: LayoutNode, tag: Tag, tgt: LayoutNode)
    requires Consistent(nodes, succ, pred) && src in nodes && tgt in nodes && src != tgt
    requires succ2 == succ[src := succ[src] + {(tgt, tag)}] && pred2 == pred[tgt := pred[tgt] + {(src, tag)}]
    ensures Consistent(nodes, succ2, pred2)
  {
    forall n, e | n in nodes && e in succ2[n] ensures e.0 in nodes && e.0 != n && (n, e.1) in pred2[e.0] {
      if e in succ[n] { assert (n, e.1) in pred[e.0]; }
    }
    forall n, e | n in nodes && e in pred2[n] ensures e.0 in nodes && e.0 != n && (n, e.1) in succ2[e.0] {
      if e in pred[n] { assert (n, e.1) in succ[e.0]; }
    }
  }

  lemma {:induction false} LinkRemoved(nodes: set<LayoutNode>, succ: Snapshot, pred: Snapshot, succ2: Snapshot,
                                       pred2: Snapshot, src: LayoutNode, tag: Tag, tgt: LayoutNode)
    requires Consistent(nodes, succ, pred) && src in nodes && tgt in nodes
    requires succ2 == succ[src := succ[src] - {(tgt, tag)}] && pred2 == pred[tgt := pred[tgt] - {(src, tag)}]
    ensures EdgesOf(succ2) == EdgesOf(succ) - {(src, tag, tgt)}
    ensures Consistent(nodes, succ2, pred2)
  {
    EdgeRemoved(succ, succ2, src, tag, tgt);
    UnlinkIsMirrored(nodes, succ, pred, succ2, pred2, src, tag, tgt);
  }

  lemma {:induction false} UnlinkIsMirrored(nodes: set<LayoutNode>, succ: Snapshot, pred: Snapshot, succ2: Snapshot,
                                            pred2: Snapshot, src: LayoutNode, tag: Tag, tgt: LayoutNode)
    requires Consistent(nodes, succ, pred) && src in nodes && tgt in nodes
    requires succ2 == succ[src := succ[src] - {(tgt, tag)}] && pred2 == pred[tgt := pred[tgt] - {(src, tag)}]
    ensures Consistent(nodes, succ2, pred2)
  {
    forall n, e | n in nodes && e in succ2[n] ensures e.0 in nodes && e.0 != n && (n, e.1) in pred2[e.0] {
      assert e in succ[n] && (n, e.1) in pred[e.0];
    }
    forall n, e | n in nodes && e in pred2[n] ensures e.0 in nodes && e.0 != n && (n, e.1) in succ2[e.0] {
      assert e in pred[n] && (n, e.1) in succ[e.0];
    }
  }

  /** What a moved edge becomes: an edge with a new offset is not added when it would
      be a self edge, or when the offset is too large. */
  ghost function Moved(src: LayoutNode, tag: Tag, tgt: LayoutNode, offsetToSum: int): set<Edge>
    requires offsetToSum != 0 ==> tag.Instance?
  {
    if offsetToSum == 0 then {(src, tag, tgt)}
    else
      var offset := (tag.offset + offsetToSum) % 0x1_0000_0000_0000_0000;
      if src == tgt || offset > 0xFFFF then {} else {(src, Instance(offset, tag.strides), tgt)}
  }

  ghost function Without(links: Links, node: LayoutNode): Links {
    set e | e in links && e.0 != node
  }

  lemma {:induction false} Forgotten(nodes: set<LayoutNode>, succ: Snapshot, pred: Snapshot, succ2: Snapshot,
                                     pred2: Snapshot, node: LayoutNode)
    requires Consistent(nodes, succ, pred) && node in nodes
    requires succ2.Keys == nodes - {node} && pred2.Keys == nodes - {node}
    requires forall n :: n in succ2 ==> succ2[n] == Without(succ[n], node) && pred2[n] == Without(pred[n], node)
    ensures Consistent(nodes - {node}, succ2, pred2)
    ensures EdgesOf(succ2) == set e | e in EdgesOf(succ) && e.0 != node && e.2 != node
  {
    forall e | e in EdgesOf(succ) && e.0 != node && e.2 != node ensures e in EdgesOf(succ2) {
      assert (e.2, e.1) in succ[e.0];
    }
  }

  lemma {:induction false} SwapTwice(links: Links, from: LayoutNode, into: LayoutNode)
    requires from != into
    ensures Swapped(Swapped(links, from, into), from, into) == Swapped(links, from, into)
  {
    var once := Swapped(links, from, into);
    assert forall e :: e in once ==> e == (if e.0 == from then into else e.0, e.1);
  }

  lemma {:induction false} SwapNothing(links: Links, from: LayoutNode, into: LayoutNode)
    requires forall e :: e in links ==> e.0 != from
    ensures Swapped(links, from, into) == links
  {
    assert forall e :: e in links ==> e == (if e.0 == from then into else e.0, e.1);
  }

  lemma {:induction false} SwapThenDrop(a: Links, b: Links, from: LayoutNode, into: LayoutNode)
    ensures WithoutBoth(Swapped(a, from, into) + b, from, into) == WithoutBoth(a + b, from, into)
  {
    forall e | e in WithoutBoth(a, from, into) ensures e in Swapped(a, from, into) {
      assert e == (if e.0 == from then into else e.0, e.1);
    }
  }
}

/** The normalizing passes as they change the linked nodes. */
module InPlaceCanonicalize {
  import opened Ghast
  import opened Canonicalize
  import opened AstNode

  // ----- Flipping -----

  /** Away from an empty `then`, flipping is flipping the children. */
  lemma {:induction false} FlipBuild(s: Shape, f: Flags, before: seq<Ast>, after: seq<Ast>)
    requires Fits(s, |before|) && |before| == |after| && forall j :: 0 <= j < |before| ==> after[j] == Flip(before[j])
    requires s.IfShape? ==> !before[0].Null?
    ensures Build(s, f, after) == Flip(Build(s, f, before))
  {
    match s
    case SeqShape => assert after == FlipSeq(before);
    case SwitchShape(_, labels) => assert CasesOf(labels, after) == FlipCases(CasesOf(labels, before));
    case _ =>
  }

  method FlipKid(kids: seq<Node?>, i: nat, ghost trees: seq<Ast>, ghost below: set<Node>)
    requires i < |kids| && AreKids(kids, trees, below)
    modifies below
    ensures AreKids(kids, trees[i := Flip(trees[i])], below)
    decreases below, 3
  {
    if kids[i] != null {
      ghost var mine := kids[i].repr;
      KidAndOthers(kids, i, trees, below);
      FlipFirst(kids, i, trees, below);
      OthersAndKid(kids, i, trees, below, mine);
      assert below + mine == below;
    }
  }

  method FlipFirst(kids: seq<Node?>, i: nat, ghost trees: seq<Ast>, ghost below: set<Node>)
    requires i < |kids| && kids[i] != null && kids[i].Valid() && kids[i].repr <= below
    requires Others(kids, i, trees, below, kids[i].repr)
    modifies kids[i].repr
    ensures kids[i].Valid() && kids[i].repr == old(kids[i].repr) && kids[i].Tree() == Flip(old(kids[i].Tree()))
    ensures Others(kids, i, trees, below, kids[i].repr)
    decreases below, 2
  {
    FlipEmptyThen(kids[i]);
  }

  /** The visit of the children. */
  method FlipKids(n: Node)
    requires n.Valid()
    modifies n.repr
    ensures n.Valid() && n.repr == old(n.repr) && n.shape == old(n.shape) && n.AllFlags() == old(n.AllFlags())
    ensures |n.trees| == |old(n.trees)| && forall j :: 0 <= j < |n.trees| ==> n.trees[j] == Flip(old(n.trees[j]))
    decreases n.repr, 0
  {
    ghost var below, start, trees := n.repr - {n}, n.trees, n.trees;
    var kids := n.kids;
    var i := 0;
    while i < |kids|
      invariant 0 <= i <= |kids| == |start|
      invariant unchanged(n) && AreKids(kids, trees, below)
      invariant forall j :: 0 <= j < i ==> trees[j] == Flip(start[j])
      invariant forall j :: i <= j < |kids| ==> trees[j] == start[j]
    {
      FlipKid(kids, i, trees, below);
      trees := trees[i := Flip(trees[i])];
      i := i + 1;
    }
    n.Refresh(trees, below);
  }

  method FlipEmptyThen(n: Node)
    requires n.Valid()
    modifies n.repr
    ensures n.Valid() && n.repr == old(n.repr)
    ensures n.Tree() == Flip(old(n.Tree()))
    decreases n.repr, 1
  {
    if n.shape.IfShape? && n.kids[0] == null {
      n.kids := [n.kids[1], null];
      n.shape := IfShape(Negated(n.shape.cond));
      n.Refresh([n.trees[1], Null], n.repr - {n});
      FlipKids(n);
    } else {
      ghost var start := n.trees;
      FlipKids(n);
      FlipBuild(n.shape, n.AllFlags(), start, n.trees);
    }
  }

  // ----- Collapsing -----

  /** What takes the place of a child of a sequence. */
  ghost function Part(k: Node?): seq<Node?>
    reads k
  {
    if k != null && k.shape.SeqShape? then k.kids else [k]
  }

  ghost function FlatKids(kids: seq<Node?>): seq<Node?>
    reads set k | k in kids && k != null
  {
    if kids == [] then [] else Part(kids[0]) + FlatKids(kids[1..])
  }

  lemma {:induction false} AppendKids(a: seq<Node?>, ta: seq<Ast>, belowA: set<Node>, b: seq<Node?>, tb: seq<Ast>,
                                      belowB: set<Node>, below: set<Node>)
    requires AreKids(a, ta, belowA) && AreKids(b, tb, belowB) && belowA !! belowB && belowA + belowB <= below
    ensures AreKids(a + b, ta + tb, below)
  {
  }

  /** The flattened children make the flattened trees. */
  lemma {:induction false} FlatAreKids(kids: seq<Node?>, trees: seq<Ast>, below: set<Node>)
    requires AreKids(kids, trees, below)
    ensures AreKids(FlatKids(kids), Flatten(trees), below)
    decreases |kids|
  {
    if kids != [] {
      var k := kids[0];
      var mine := if k == null then {} else k.repr;
      assert AreKids(kids[1..], trees[1..], below - mine);
      FlatAreKids(kids[1..], trees[1..], below - mine);
      PartAreKids(k);
      AppendKids(Part(k), Splice(TreeOf(k)), mine, FlatKids(kids[1..]), Flatten(trees[1..]), below - mine, below);
    }
  }

  lemma {:induction false} PartAreKids(k: Node?)
    requires k != null ==> k.Valid()
    ensures AreKids(Part(k), Splice(TreeOf(k)), if k == null then {} else k.repr)
  {
    if k != null && k.shape.SeqShape? { assert k.Tree() == Seq(k.trees); }
  }

  lemma {:induction false} CollapseBuild(s: Shape, f: Flags, before: seq<Ast>, after: seq<Ast>)
    requires Fits(s, |before|) && |before| == |after|
    requires forall j :: 0 <= j < |before| ==> after[j] == Collapse(before[j])
    ensures s.SeqShape? ==> Build(s, f, Flatten(after)) == Collapse(Build(s, f, before))
    ensures !s.SeqShape? ==> Build(s, f, after) == Collapse(Build(s, f, before))
  {
    match s
    case SeqShape => assert after == CollapseSeq(before);
    case SwitchShape(_, labels) => assert CasesOf(labels, after) == CollapseCases(CasesOf(labels, before));
    case _ =>
  }

  method CollapseKid(kids: seq<Node?>, i: nat, ghost trees: seq<Ast>, ghost below: set<Node>)
    requires i < |kids| && AreKids(kids, trees, below)
    modifies below
    ensures AreKids(kids, trees[i := Collapse(trees[i])], below)
    decreases below, 3
  {
    if kids[i] != null {
      ghost var mine := kids[i].repr;
      KidAndOthers(kids, i, trees, below);
      CollapseFirst(kids, i, trees, below);
      OthersAndKid(kids, i, trees, below, mine);
      assert below + mine == below;
    }
  }

  method CollapseFirst(kids: seq<Node?>, i: nat, ghost trees: seq<Ast>, ghost below: set<Node>)
    requires i < |kids| && kids[i] != null && kids[i].Valid() && kids[i].repr <= below
    requires Others(kids, i, trees, below, kids[i].repr)
    modifies kids[i].repr
    ensures kids[i].Valid() && kids[i].repr == old(kids[i].repr) && kids[i].Tree() == Collapse(old(kids[i].Tree()))
    ensures Others(kids, i, trees, below, kids[i].repr)
    decreases below, 2
  {
    CollapseSequences(kids[i]);
  }

  method CollapseKids(n: Node)
    requires n.Valid()
    modifies n.repr
    ensures n.Valid() && n.repr == old(n.repr) && n.shape == old(n.shape) && n.AllFlags() == old(n.AllFlags())
    ensures |n.trees| == |old(n.trees)| && forall j :: 0 <= j < |n.trees| ==> n.trees[j] == Collapse(old(n.trees[j]))
    decreases n.repr, 0
  {
    ghost var below, start, trees := n.repr - {n}, n.trees, n.trees;
    var kids := n.kids;
    var i := 0;
    while i < |kids|
      invariant 0 <= i <= |kids| == |start|
      invariant unchanged(n) && AreKids(kids, trees, below)
      invariant forall j :: 0 <= j < i ==> trees[j] == Collapse(start[j])
      invariant forall j :: i <= j < |kids| ==> trees[j] == start[j]
    {
      CollapseKid(kids, i, trees, below);
      trees := trees[i := Collapse(trees[i])];
      i := i + 1;
    }
    n.Refresh(trees, below);
  }

  /** The positions of the nested sequences, with their lengths. */
  method FindSequences(kids: seq<Node?>, ghost parts: seq<seq<Node?>>) returns (found: seq<(nat, nat)>)
    requires |parts| == |kids| && forall i :: 0 <= i < |kids| ==> parts[i] == Part(kids[i])
    ensures AllFound(kids, parts, found)
    ensures forall j :: 0 <= j < |found| ==> kids[found[j].0] != null && kids[found[j].0].shape.SeqShape?
  {
    found := [];
    for i := 0 to |kids|
      invariant forall j :: 0 <= j < |found| ==> IsFound(parts, found[j]) && found[j].0 < i
      invariant forall j :: 0 <= j < |found| ==> kids[found[j].0] != null && kids[found[j].0].shape.SeqShape?
      invariant forall j :: 0 <= j < |found| - 1 ==> found[j].0 < found[j + 1].0
      invariant forall m :: 0 <= m < i && parts[m] != [kids[m]] ==> exists j :: 0 <= j < |found| && found[j].0 == m
    {
      if kids[i] != null && kids[i].shape.SeqShape? {
        ghost var before := found;
        found := found + [(i, |kids[i].kids|)];
        assert found[|found| - 1].0 == i;
        assert forall j :: 0 <= j < |before| ==> found[j] == before[j];
      }
    }
  }

  predicate IsFound(parts: seq<seq<Node?>>, f: (nat, nat)) {
    f.0 < |parts| && f.1 == |parts[f.0]|
  }

  /** `found` lists, in order, all positions of `kids` that are replaced by a part. */
  predicate AllFound(kids: seq<Node?>, parts: seq<seq<Node?>>, found: seq<(nat, nat)>)
    requires |parts| == |kids|
  {
    && (forall j :: 0 <= j < |found| ==> IsFound(parts, found[j]))
    && (forall j :: 0 <= j < |found| - 1 ==> found[j].0 < found[j + 1].0)
    && (forall m :: 0 <= m < |kids| && parts[m] != [kids[m]] ==> exists j :: 0 <= j < |found| && found[j].0 == m)
  }

  function Concat(parts: seq<seq<Node?>>): seq<Node?> {
    if parts == [] then [] else parts[0] + Concat(parts[1..])
  }

  lemma {:induction false} ConcatSnoc(parts: seq<seq<Node?>>, x: seq<Node?>)
    ensures Concat(parts + [x]) == Concat(parts) + x
  {
    if parts == [] {
      assert [x][1..] == [];
    } else {
      assert (parts + [x])[0] == parts[0] && (parts + [x])[1..] == parts[1..] + [x];
      ConcatSnoc(parts[1..], x);
    }
  }

  lemma {:induction false} ConcatIsFlat(kids: seq<Node?>, parts: seq<seq<Node?>>)
    requires |parts| == |kids| && forall i :: 0 <= i < |kids| ==> parts[i] == Part(kids[i])
    ensures Concat(parts) == FlatKids(kids)
  {
    if kids != [] { ConcatIsFlat(kids[1..], parts[1..]); }
  }

  /** After `p` replacements the list is flat up to original position `m`. */
  predicate FlatUpTo(kids: seq<Node?>, parts: seq<seq<Node?>>, found: seq<(nat, nat)>, p: nat, m: nat,
                     vec: seq<Node?>, offset: int)
    requires p <= |found| && |parts| == |kids|
  {
    && m <= |kids| && (p < |found| ==> m <= found[p].0)
    && (forall j :: 0 <= j < |found| ==> (j < p <==> found[j].0 < m))
    && vec == Concat(parts[..m]) + kids[m..]
    && offset + m == |Concat(parts[..m])|
  }

  /** The offset points at the nested sequence, and replacing it by its children
      flattens the list up to there. */
  lemma {:induction false} SpliceStep(kids: seq<Node?>, parts: seq<seq<Node?>>, found: seq<(nat, nat)>, p: nat, m: nat,
                                      vec: seq<Node?>, offset: int)
    requires |parts| == |kids| && AllFound(kids, parts, found) && p < |found|
    requires FlatUpTo(kids, parts, found, p, m, vec, offset)
    ensures var at := found[p].0;
            var index := at + offset;
            && 0 <= index < |vec| && at < |kids| && vec[index] == kids[at]
            && FlatUpTo(kids, parts, found, p + 1, at + 1, vec[..index] + parts[at] + vec[index + 1..],
                        offset + found[p].1 - 1)
  {
    var at := found[p].0;
    assert IsFound(parts, found[p]);
    PlainBetween(kids, parts, found, m, at, p);
    ConcatOfPlain(kids, parts, m, at);
    assert parts[..at + 1] == parts[..at] + [parts[at]];
    ConcatSnoc(parts[..at], parts[at]);
    var front := Concat(parts[..at]);
    assert kids[m..] == kids[m..at] + ([kids[at]] + kids[at + 1..]);
    assert vec == front + ([kids[at]] + kids[at + 1..]);
    Ordered(found, p);
  }

  lemma {:induction false} SpliceEnd(kids: seq<Node?>, parts: seq<seq<Node?>>, found: seq<(nat, nat)>, m: nat,
                                     vec: seq<Node?>, offset: int)
    requires |parts| == |kids| && AllFound(kids, parts, found) && FlatUpTo(kids, parts, found, |found|, m, vec, offset)
    ensures vec == Concat(parts)
  {
    PlainBetween(kids, parts, found, m, |kids|, |found|);
    ConcatOfPlain(kids, parts, m, |kids|);
    assert parts[..|kids|] == parts;
  }

  lemma {:induction false} PlainBetween(kids: seq<Node?>, parts: seq<seq<Node?>>, found: seq<(nat, nat)>, m: nat,
                                        at: nat, p: nat)
    requires |parts| == |kids| && AllFound(kids, parts, found) && m <= at <= |kids| && p <= |found|
    requires forall j :: 0 <= j < |found| ==> (j < p <==> found[j].0 < m)
    requires p < |found| ==> found[p].0 == at
    requires p == |found| ==> at == |kids|
    ensures forall q :: m <= q < at ==> parts[q] == [kids[q]]
  {
    forall q | m <= q < at ensures parts[q] == [kids[q]] {
      if parts[q] != [kids[q]] {
        var j :| 0 <= j < |found| && found[j].0 == q;
        Ascending(found, p, j);
      }
    }
  }

  lemma {:induction false} Ascending(found: seq<(nat, nat)>, p: nat, j: nat)
    requires forall j :: 0 <= j < |found| - 1 ==> found[j].0 < found[j + 1].0
    requires p <= j < |found|
    ensures found[p].0 <= found[j].0
    decreases j
  {
    if p < j {
      Ascending(found, p, j - 1);
      assert found[j - 1].0 < found[(j - 1) + 1].0;
    }
  }

  lemma {:induction false} Ordered(found: seq<(nat, nat)>, p: nat)
    requires forall j :: 0 <= j < |found| - 1 ==> found[j].0 < found[j + 1].0
    requires p < |found|
    ensures forall j :: 0 <= j < |found| ==> (j < p + 1 <==> found[j].0 < found[p].0 + 1)
    ensures p + 1 < |found| ==> found[p].0 + 1 <= found[p + 1].0
  {
    forall j | 0 <= j < |found| ensures j < p + 1 <==> found[j].0 < found[p].0 + 1 {
      if j <= p { Ascending(found, j, p); } else { Ascending(found, p + 1, j); }
    }
  }

  lemma {:induction false} ConcatOfPlain(kids: seq<Node?>, parts: seq<seq<Node?>>, m: nat, at: nat)
    requires |parts| == |kids| && m <= at <= |kids| && forall q :: m <= q < at ==> parts[q] == [kids[q]]
    ensures Concat(parts[..at]) == Concat(parts[..m]) + kids[m..at]
    decreases at
  {
    if m < at {
      ConcatOfPlain(kids, parts, m, at - 1);
      assert parts[..at] == parts[..at - 1] + [parts[at - 1]];
      ConcatSnoc(parts[..at - 1], parts[at - 1]);
    }
  }

  /** Splicing the nested sequences one after the other, with a running offset for the
      positions behind them, flattens the list. */
  method SpliceSequences(kids: seq<Node?>, ghost parts: seq<seq<Node?>>) returns (vec: seq<Node?>)
    requires |parts| == |kids| && forall i :: 0 <= i < |kids| ==> parts[i] == Part(kids[i])
    ensures vec == Concat(parts)
  {
    var found := FindSequences(kids, parts);
    vec := kids;
    var offset: int := 0;
    ghost var m: nat := 0;
    assert parts[..0] == [] && kids[0..] == kids;
    for p := 0 to |found|
      invariant FlatUpTo(kids, parts, found, p, m, vec, offset)
    {
      SpliceStep(kids, parts, found, p, m, vec, offset);
      var index, size := found[p].0 + offset, found[p].1;
      offset := offset + size - 1;
      assert vec[index] == kids[found[p].0];
      vec := vec[..index] + vec[index].kids + vec[index + 1..];
      m := found[p].0 + 1;
    }
    SpliceEnd(kids, parts, found, m, vec, offset);
  }

  ghost function Parts(kids: seq<Node?>): (r: seq<seq<Node?>>)
    reads set k | k in kids && k != null
    ensures |r| == |kids| && forall i :: 0 <= i < |kids| ==> r[i] == Part(kids[i])
  {
    if kids == [] then [] else [Part(kids[0])] + Parts(kids[1..])
  }

  method CollapseSequences(n: Node)
    requires n.Valid()
    modifies n.repr
    ensures n.Valid() && n.repr == old(n.repr)
    ensures n.Tree() == Collapse(old(n.Tree()))
    decreases n.repr, 1
  {
    ghost var start := n.trees;
    CollapseKids(n);
    CollapseBuild(n.shape, n.AllFlags(), start, n.trees);
    if n.shape.SeqShape? {
      SpliceInPlace(n);
    }
  }

  method SpliceInPlace(n: Node)
    requires n.Valid() && n.shape.SeqShape?
    modifies n
    ensures n.Valid() && n.repr == old(n.repr) && n.shape == old(n.shape) && n.AllFlags() == old(n.AllFlags())
    ensures n.trees == Flatten(old(n.trees))
  {
    ghost var parts := Parts(n.kids);
    ConcatIsFlat(n.kids, parts);
    var vec := SpliceSequences(n.kids, parts);
    FlatAreKids(n.kids, n.trees, n.repr - {n});
    Relink(n, vec, Flatten(n.trees));
  }

  method Relink(n: Node, kids: seq<Node?>, ghost trees: seq<Ast>)
    requires n.shape.SeqShape? && n in n.repr && AreKids(kids, trees, n.repr - {n})
    modifies n
    ensures n.Valid() && n.repr == old(n.repr) && n.shape == old(n.shape) && n.AllFlags() == old(n.AllFlags())
    ensures n.trees == trees
  {
    n.kids := kids;
    n.Refresh(trees, n.repr - {n});
  }

  // ----- Short sequences -----

  /** The children from position `i` on still consist of nodes in `top`. */
  ghost predicate Pending(kids: seq<Node?>, i: nat, top: set<Node>)
    reads set k | k in kids && k != null
  {
    forall j :: i <= j < |kids| && kids[j] != null ==> kids[j].repr <= top
  }

  method SimplifyKid(kids: seq<Node?>, i: nat, ghost trees: seq<Ast>, ghost below: set<Node>, ghost top: set<Node>)
    returns (r: Node?, ghost below2: set<Node>)
    requires i < |kids| && AreKids(kids, trees, below) && Pending(kids, i, top)
    modifies below
    ensures below <= below2 && fresh(below2 - below)
    ensures AreKids(kids[i := r], trees[i := Shorten(trees[i])], below2) && Pending(kids[i := r], i + 1, top)
    ensures Shorten(trees[i]) == TreeOf(r)
    decreases top, 3
  {
    r, below2 := null, below;
    if kids[i] != null {
      ghost var mine := kids[i].repr;
      KidAndOthers(kids, i, trees, below);
      r := SimplifyFirst(kids, i, trees, below, top);
      if r != null {
        OthersAndNew(kids, i, r, trees, below, mine);
        below2 := below + r.repr;
      } else {
        OthersAndNone(kids, i, trees, below, mine);
      }
    }
  }

  method SimplifyFirst(kids: seq<Node?>, i: nat, ghost trees: seq<Ast>, ghost below: set<Node>, ghost top: set<Node>)
    returns (r: Node?)
    requires i < |kids| && kids[i] != null && kids[i].Valid() && kids[i].repr <= top
    requires Others(kids, i, trees, below, kids[i].repr) && Pending(kids, i, top)
    modifies kids[i].repr
    ensures TreeOf(r) == Shorten(old(kids[i].Tree()))
    ensures r != null ==> r.Valid() && fresh(r.repr - old(kids[i].repr))
    ensures Others(kids, i, trees, below, old(kids[i].repr)) && Pending(kids, i + 1, top)
    decreases top, 2
  {
    r := SimplifyAtomicSequence(kids[i]);
  }

  /** The children of a sequence of at least two nodes, of an `if` or of a loop. */
  method SimplifyKids(n: Node)
    requires n.Valid() && !n.shape.SwitchShape?
    modifies n.repr
    ensures n.Valid() && fresh(n.repr - old(n.repr)) && n.shape == old(n.shape) && n.AllFlags() == old(n.AllFlags())
    ensures |n.trees| == |old(n.trees)| && forall j :: 0 <= j < |n.trees| ==> n.trees[j] == Shorten(old(n.trees[j]))
    decreases n.repr, 0
  {
    ghost var top, start := n.repr - {n}, n.trees;
    ghost var below, trees := top, start;
    var kids := n.kids;
    var i := 0;
    while i < |kids|
      invariant 0 <= i <= |kids| == |start|
      invariant unchanged(n) && n !in below && top <= below && fresh(below - top)
      invariant AreKids(kids, trees, below) && Pending(kids, i, top)
      invariant forall j :: 0 <= j < i ==> trees[j] == Shorten(start[j])
      invariant forall j :: i <= j < |kids| ==> trees[j] == start[j]
    {
      var r;
      r, below := SimplifyKid(kids, i, trees, below, top);
      kids := kids[i := r];
      trees := trees[i := Shorten(trees[i])];
      i := i + 1;
    }
    n.kids := kids;
    n.Refresh(trees, below);
  }

  lemma {:induction false} ShortenBuild(s: Shape, f: Flags, before: seq<Ast>, after: seq<Ast>)
    requires Fits(s, |before|) && |before| == |after|
    requires forall j :: 0 <= j < |before| ==> after[j] == Shorten(before[j])
    requires !s.SwitchShape? && (s.SeqShape? ==> |before| > 1)
    ensures Build(s, f, after) == Shorten(Build(s, f, before))
  {
    match s
    case SeqShape => assert after == ShortenSeq(before);
    case _ =>
  }

  method SimplifyAtomicSequence(n: Node) returns (r: Node?)
    requires n.Valid()
    modifies n.repr
    ensures TreeOf(r) == Shorten(old(n.Tree()))
    ensures r != null ==> r.Valid() && fresh(r.repr - old(n.repr))
    decreases n.repr, 1
  {
    if n.shape.SeqShape? && |n.kids| == 0 {
      return null;
    }
    if n.shape.SeqShape? && |n.kids| == 1 {
      assert n.Tree() == Seq([n.trees[0]]);
      if n.kids[0] == null {
        return null;
      }
      r := SimplifyAtomicSequence(n.kids[0]);
      return r;
    }
    if n.shape.SwitchShape? {
      SimplifyCases(n);
      return n;
    }
    ghost var start := n.trees;
    SimplifyKids(n);
    ShortenBuild(n.shape, n.AllFlags(), start, n.trees);
    return n;
  }

  predicate HasEmpty(labels: seq<seq<nat>>) {
    exists i :: 0 <= i < |labels| && labels[i] == []
  }

  lemma {:induction false} HasDefaultIs(labels: seq<seq<nat>>, trees: seq<Ast>)
    requires |labels| == |trees|
    ensures HasDefault(CasesOf(labels, trees)) <==> HasEmpty(labels)
  {
    var cases := CasesOf(labels, trees);
    if HasEmpty(labels) {
      var i :| 0 <= i < |labels| && labels[i] == [];
      assert cases[i].labels == [];
    }
  }

  /** What the cases from position `i` on will become, behind what has become of the
      cases before. */
  ghost function Outcome(labels: seq<seq<nat>>, trees: seq<Ast>, i: nat, hasDefault: bool): seq<Case>
    requires |labels| == |trees| && i <= |labels|
  {
    CasesOf(labels[..i], trees[..i]) + ShortenCases(CasesOf(labels[i..], trees[i..]), hasDefault)
  }

  /** A case is kept, with its new body or a `break`. */
  lemma {:induction false} KeepCase(labels: seq<seq<nat>>, trees: seq<Ast>, i: nat, hasDefault: bool, body: Ast)
    requires |labels| == |trees| && i < |labels|
    requires body == (if Shorten(trees[i]).Null? then SwitchBreak else Shorten(trees[i]))
    requires Shorten(trees[i]).Null? ==> hasDefault
    ensures Outcome(labels, trees[i := body], i + 1, hasDefault) == Outcome(labels, trees, i, hasDefault)
  {
    var trees2 := trees[i := body];
    CasesSnoc(labels, trees2, i);
    assert trees2[..i] == trees[..i] && trees2[i + 1..] == trees[i + 1..];
    CasesCons(labels, trees, i);
  }

  /** A case is erased. */
  lemma {:induction false} EraseCase(labels: seq<seq<nat>>, trees: seq<Ast>, i: nat)
    requires |labels| == |trees| && i < |labels| && Shorten(trees[i]).Null?
    ensures var labels2, trees2 := labels[..i] + labels[i + 1..], trees[..i] + trees[i + 1..];
            Outcome(labels2, trees2, i, false) == Outcome(labels, trees, i, false)
  {
    var labels2, trees2 := labels[..i] + labels[i + 1..], trees[..i] + trees[i + 1..];
    assert labels2[..i] == labels[..i] && labels2[i..] == labels[i + 1..];
    assert trees2[..i] == trees[..i] && trees2[i..] == trees[i + 1..];
    CasesCons(labels, trees, i);
  }

  lemma {:induction false} CasesSnoc(labels: seq<seq<nat>>, trees: seq<Ast>, i: nat)
    requires |labels| == |trees| && i < |labels|
    ensures CasesOf(labels[..i + 1], trees[..i + 1]) == CasesOf(labels[..i], trees[..i]) + [Case(labels[i], trees[i])]
  {
  }

  lemma {:induction false} CasesCons(labels: seq<seq<nat>>, trees: seq<Ast>, i: nat)
    requires |labels| == |trees| && i < |labels|
    ensures CasesOf(labels[i..], trees[i..]) == [Case(labels[i], trees[i])] + CasesOf(labels[i + 1..], trees[i + 1..])
  {
    assert labels[i..][1..] == labels[i + 1..] && trees[i..][1..] == trees[i + 1..];
  }

  /** One case of a switch: it gets its new body, or a `break`, or it is erased; in the
      last case the visit goes on at the same position. A `break` that has just been
      put in place does not change when it is visited again. */
  method SimplifyCase(labels: seq<seq<nat>>, kids: seq<Node?>, i: nat, ghost trees: seq<Ast>, ghost below: set<Node>,
                      ghost top: set<Node>, ghost hasDefault: bool)
    returns (labels2: seq<seq<nat>>, kids2: seq<Node?>, next: nat, ghost trees2: seq<Ast>, ghost below2: set<Node>)
    requires i < |kids| == |labels| && AreKids(kids, trees, below) && Pending(kids, i, top)
    requires hasDefault == HasEmpty(labels)
    modifies below
    ensures below <= below2 && fresh(below2 - below) && |kids2| == |labels2| && next <= |kids2|
    ensures |kids2| - next == |kids| - i - 1
    ensures AreKids(kids2, trees2, below2) && Pending(kids2, next, top) && hasDefault == HasEmpty(labels2)
    ensures Outcome(labels2, trees2, next, hasDefault) == Outcome(labels, trees, i, hasDefault)
    decreases top, 4
  {
    var r;
    r, below2 := SimplifyKid(kids, i, trees, below, top);
    labels2, kids2, trees2, next := labels, kids[i := r], trees[i := Shorten(trees[i])], i + 1;
    if r == null {
      if !HasEmpty(labels) {
        EraseCase(labels, trees, i);
        RemoveKid(kids2, trees2, below2, i);
        RemovedLabels(labels, i);
        assert trees2[..i] + trees2[i + 1..] == trees[..i] + trees[i + 1..];
        labels2, kids2 := labels[..i] + labels[i + 1..], kids2[..i] + kids2[i + 1..];
        trees2, next := trees[..i] + trees[i + 1..], i;
      } else {
        KeepCase(labels, trees, i, hasDefault, SwitchBreak);
        kids2, below2 := PutBreak(kids2, i, trees2, below2, top);
        trees2 := trees[i := SwitchBreak];
      }
    } else {
      KeepCase(labels, trees, i, hasDefault, Shorten(trees[i]));
    }
  }

  /** A new `break` takes the place of a case that has disappeared. */
  method PutBreak(kids: seq<Node?>, i: nat, ghost trees: seq<Ast>, ghost below: set<Node>, ghost top: set<Node>)
    returns (kids2: seq<Node?>, ghost below2: set<Node>)
    requires i < |kids| && kids[i] == null && AreKids(kids, trees, below) && Pending(kids, i + 1, top)
    ensures below <= below2 && fresh(below2 - below) && |kids2| == |kids|
    ensures AreKids(kids2, trees[i := SwitchBreak], below2) && Pending(kids2, i + 1, top)
  {
    var b := new Node(SwitchBreakShape, [], [], {});
    kids2, below2 := kids[i := b], below + b.repr;
  }

  lemma {:induction false} RemovedLabels(labels: seq<seq<nat>>, i: nat)
    requires i < |labels| && !HasEmpty(labels)
    ensures !HasEmpty(labels[..i] + labels[i + 1..])
  {
    var r := labels[..i] + labels[i + 1..];
    forall j | 0 <= j < |r| ensures r[j] != [] {
      assert r[j] == if j < i then labels[j] else labels[j + 1];
    }
  }

  lemma {:induction false} RemoveKid(kids: seq<Node?>, trees: seq<Ast>, below: set<Node>, i: nat)
    requires i < |kids| && AreKids(kids, trees, below)
    ensures AreKids(kids[..i] + kids[i + 1..], trees[..i] + trees[i + 1..], below)
  {
    var k, t := kids[..i] + kids[i + 1..], trees[..i] + trees[i + 1..];
    assert forall j :: 0 <= j < |k| ==> k[j] == if j < i then kids[j] else kids[j + 1];
    assert forall j :: 0 <= j < |k| ==> t[j] == if j < i then trees[j] else trees[j + 1];
  }

  method SimplifyCaseList(labels: seq<seq<nat>>, kids: seq<Node?>, ghost trees: seq<Ast>, ghost top: set<Node>)
    returns (labels2: seq<seq<nat>>, kids2: seq<Node?>, ghost trees2: seq<Ast>, ghost below2: set<Node>)
    requires |kids| == |labels| && AreKids(kids, trees, top)
    modifies top
    ensures top <= below2 && fresh(below2 - top) && |kids2| == |labels2| && AreKids(kids2, trees2, below2)
    ensures CasesOf(labels2, trees2) == ShortenCases(CasesOf(labels, trees), HasEmpty(labels))
    decreases top, 5
  {
    ghost var hasDefault := HasEmpty(labels);
    labels2, kids2, trees2, below2 := labels, kids, trees, top;
    OutcomeEnds(labels, trees, hasDefault);
    var i: nat := 0;
    while i < |kids2|
      invariant i <= |kids2| == |labels2|
      invariant top <= below2 && fresh(below2 - top)
      invariant AreKids(kids2, trees2, below2) && Pending(kids2, i, top) && hasDefault == HasEmpty(labels2)
      invariant Outcome(labels2, trees2, i, hasDefault) == Outcome(labels, trees, 0, hasDefault)
      decreases |kids2| - i
    {
      labels2, kids2, i, trees2, below2 := SimplifyCase(labels2, kids2, i, trees2, below2, top, hasDefault);
    }
    OutcomeEnds(labels2, trees2, hasDefault);
  }

  lemma {:induction false} OutcomeEnds(labels: seq<seq<nat>>, trees: seq<Ast>, hasDefault: bool)
    requires |labels| == |trees|
    ensures Outcome(labels, trees, 0, hasDefault) == ShortenCases(CasesOf(labels, trees), hasDefault)
    ensures Outcome(labels, trees, |labels|, hasDefault) == CasesOf(labels, trees)
  {
    assert labels[0..] == labels && trees[0..] == trees && labels[..|labels|] == labels && trees[..|labels|] == trees;
    assert CasesOf(labels[..0], trees[..0]) == [] && CasesOf(labels[|labels|..], trees[|labels|..]) == [];
  }

  lemma {:induction false} ShortenSwitch(on: Scrutinee, f: Flags, labels: seq<seq<nat>>, trees: seq<Ast>,
                                         labels2: seq<seq<nat>>, trees2: seq<Ast>)
    requires |labels| == |trees| && |labels2| == |trees2|
    requires CasesOf(labels2, trees2) == ShortenCases(CasesOf(labels, trees), HasEmpty(labels))
    ensures Build(SwitchShape(on, labels2), f, trees2) == Shorten(Build(SwitchShape(on, labels), f, trees))
  {
    HasDefaultIs(labels, trees);
  }

  method SimplifyCases(n: Node)
    requires n.Valid() && n.shape.SwitchShape?
    modifies n.repr
    ensures n.Valid() && fresh(n.repr - old(n.repr))
    ensures n.Tree() == Shorten(old(n.Tree()))
    decreases n.repr, 0
  {
    ghost var f, start, top := n.AllFlags(), n.trees, n.repr - {n};
    var on, before := n.shape.on, n.shape.labels;
    ghost var below, trees;
    var labels, kids;
    labels, kids, trees, below := SimplifyCaseList(before, n.kids, n.trees, top);
    ShortenSwitch(on, f, before, start, labels, trees);
    n.shape := SwitchShape(on, labels);
    n.kids := kids;
    n.Refresh(trees, below);
    assert n.AllFlags() == f;
  }

  // ----- The whole normalization -----

  /** Canonicalization in place: the tree that remains runs like the original one and
      is in normal form. */
  method CanonicalizeInPlace(root: Node) returns (r: Node?)
    requires root.Valid() && Solid(root.Tree()) && DistinctLabels(root.Tree())
    modifies root.repr
    ensures r != null && r.Valid() && r.Tree() == Canonical(old(root.Tree()))
    ensures Normal(r.Tree()) && forall w: World :: Equivalent(w, old(root.Tree()), r.Tree())
  {
    ghost var before := root.Tree();
    FlipEmptyThen(root);
    CollapseSequences(root);
    r := SimplifyAtomicSequence(root);
    CanonicalIsNormalAndEquivalent(World((_, _) => false, (_, _) => 0), before);
    forall w: World ensures Equivalent(w, before, Canonical(before)) { CanonicalIsNormalAndEquivalent(w, before); }
  }
}

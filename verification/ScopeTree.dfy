/** The graph over the nodes of a GHAST along which declarations are visible. Each
    child of a sequence is the successor of the one before it, the first one of the
    sequence itself; the children of any other node are its successors. Nodes are
    named by their preorder label. */
module ScopeTree {
  import opened Ghast

  /** Only the branches of an `if` and the body of a loop may be missing. */
  predicate NoHoles(a: Ast) {
    match a
    case If(_, thn, els) => NoHoles(thn) && NoHoles(els)
    case Scs(_, body) => NoHoles(body)
    case Seq(nodes) => forall i :: 0 <= i < |nodes| ==> !nodes[i].Null? && NoHoles(nodes[i])
    case Switch(_, cases, _, _) => forall i :: 0 <= i < |cases| ==> !cases[i].body.Null? && NoHoles(cases[i].body)
    case _ => true
  }

  // ----- The unique predecessor of every node but the root -----

  /** A subtree with its label, and the node whose successor it is. */
  datatype Kid = Kid(tree: Ast, pred: nat, at: nat)

  function Optional(c: Ast, p: nat, at: nat): (r: seq<Kid>)
    ensures r == if c.Null? then [] else [Kid(c, p, at)]
  {
    if c.Null? then [] else [Kid(c, p, at)]
  }

  function KidsOfSeq(nodes: seq<Ast>, prev: nat, c: nat): (r: seq<Kid>)
    ensures |r| == |nodes| && forall i :: 0 <= i < |r| ==> r[i].tree == nodes[i]
  {
    if nodes == [] then [] else [Kid(nodes[0], prev, c)] + KidsOfSeq(nodes[1..], c, c + Size(nodes[0]))
  }

  function KidsOfCases(cases: seq<Case>, p: nat, c: nat): (r: seq<Kid>)
    ensures |r| == |cases| && forall i :: 0 <= i < |r| ==> r[i].tree == cases[i].body
  {
    if cases == [] then [] else [Kid(cases[0].body, p, c)] + KidsOfCases(cases[1..], p, c + Size(cases[0].body))
  }

  function Kids(a: Ast, k: nat): (r: seq<Kid>)
    ensures forall i :: 0 <= i < |r| ==> r[i].tree < a
  {
    match a
    case If(_, thn, els) => Optional(thn, k, k + 1) + Optional(els, k, k + 1 + Size(thn))
    case Scs(_, body) => Optional(body, k, k + 1)
    case Seq(nodes) => KidsOfSeq(nodes, k, k + 1)
    case Switch(_, cases, _, _) => KidsOfCases(cases, k, k + 1)
    case _ => []
  }

  /** The successor link of kid `i` comes from the node `p` above the kids, or from
      the kid before. */
  predicate Linked(kids: seq<Kid>, p: nat, i: nat)
    requires i < |kids|
  {
    kids[i].pred == p || (i > 0 && kids[i].pred == kids[i - 1].at)
  }

  predicate Adjacent(kids: seq<Kid>, i: nat)
    requires i + 1 < |kids|
  {
    kids[i + 1].at == kids[i].at + Size(kids[i].tree)
  }

  /** The kids fill the labels from `lo` up to `hi`, in order. */
  predicate Spans(kids: seq<Kid>, lo: nat, hi: nat) {
    && (forall i :: 0 <= i < |kids| - 1 ==> Adjacent(kids, i))
    && (if kids == [] then lo == hi
        else kids[0].at == lo && hi == kids[|kids| - 1].at + Size(kids[|kids| - 1].tree))
  }

  predicate Tiles(kids: seq<Kid>, p: nat, lo: nat, hi: nat) {
    && (forall i :: 0 <= i < |kids| ==> Size(kids[i].tree) > 0 && NoHoles(kids[i].tree))
    && (forall i :: 0 <= i < |kids| ==> Linked(kids, p, i))
    && Spans(kids, lo, hi)
  }

  lemma {:induction false} SpanCons(kid: Kid, rest: seq<Kid>, hi: nat)
    requires Spans(rest, kid.at + Size(kid.tree), hi)
    ensures Spans([kid] + rest, kid.at, hi)
  {
    var all := [kid] + rest;
    forall i | 0 <= i < |all| - 1 ensures Adjacent(all, i) {
      if i > 0 { assert Adjacent(rest, i - 1); }
    }
  }

  /** In a sequence every kid is the successor of the one before it. */
  predicate Chained(kids: seq<Kid>, prev: nat, i: nat)
    requires i < |kids|
  {
    kids[i].pred == if i == 0 then prev else kids[i - 1].at
  }

  lemma {:induction false} SeqSpans(nodes: seq<Ast>, prev: nat, c: nat)
    ensures Spans(KidsOfSeq(nodes, prev, c), c, c + SizeSeq(nodes))
    ensures forall i :: 0 <= i < |nodes| ==> Chained(KidsOfSeq(nodes, prev, c), prev, i)
  {
    if nodes != [] {
      SeqSpans(nodes[1..], c, c + Size(nodes[0]));
      var first, rest := Kid(nodes[0], prev, c), KidsOfSeq(nodes[1..], c, c + Size(nodes[0]));
      SpanCons(first, rest, c + SizeSeq(nodes));
      var kids := [first] + rest;
      forall i | 0 <= i < |kids| ensures Chained(kids, prev, i) {
        if i > 0 { assert Chained(rest, c, i - 1); }
      }
    }
  }

  lemma {:induction false} CasesSpan(cases: seq<Case>, p: nat, c: nat)
    ensures Spans(KidsOfCases(cases, p, c), c, c + SizeCases(cases))
    ensures forall i :: 0 <= i < |cases| ==> KidsOfCases(cases, p, c)[i].pred == p
  {
    if cases != [] {
      var first, at := Kid(cases[0].body, p, c), c + Size(cases[0].body);
      var rest := KidsOfCases(cases[1..], p, at);
      CasesSpan(cases[1..], p, at);
      SpanCons(first, rest, c + SizeCases(cases));
      var kids := [first] + rest;
      assert kids == KidsOfCases(cases, p, c);
      forall i | 0 <= i < |cases| ensures kids[i].pred == p {
        if i > 0 { assert kids[i] == rest[i - 1]; }
      }
    }
  }

  lemma {:induction false} OptionalsTile(t: Ast, e: Ast, k: nat)
    requires NoHoles(t) && NoHoles(e)
    ensures var kids := Optional(t, k, k + 1) + Optional(e, k, k + 1 + Size(t));
            Tiles(kids, k, k + 1, k + 1 + Size(t) + Size(e)) && forall i :: 0 <= i < |kids| ==> kids[i].pred == k
  {
  }

  /** The kids of a node fill the labels behind its own. */
  predicate Tiled(a: Ast, k: nat) {
    && Tiles(Kids(a, k), k, k + 1, k + Size(a))
    && (!a.Seq? ==> forall i :: 0 <= i < |Kids(a, k)| ==> Kids(a, k)[i].pred == k)
  }

  lemma {:induction false} LoopIsTiled(kind: LoopKind, body: Ast, k: nat)
    requires NoHoles(body)
    ensures Tiled(Scs(kind, body), k)
  {
    OptionalsTile(body, Null, k);
    assert Optional(body, k, k + 1) + Optional(Null, k, k + 1 + Size(body)) == Optional(body, k, k + 1);
  }

  lemma {:induction false} ChainTiles(kids: seq<Kid>, p: nat, lo: nat, hi: nat)
    requires forall i :: 0 <= i < |kids| ==> !kids[i].tree.Null? && NoHoles(kids[i].tree)
    requires Spans(kids, lo, hi) && forall i :: 0 <= i < |kids| ==> Chained(kids, p, i)
    ensures Tiles(kids, p, lo, hi)
  {
    forall i | 0 <= i < |kids| ensures Linked(kids, p, i) { assert Chained(kids, p, i); }
  }

  lemma {:induction false} FanTiles(kids: seq<Kid>, p: nat, lo: nat, hi: nat)
    requires forall i :: 0 <= i < |kids| ==> !kids[i].tree.Null? && NoHoles(kids[i].tree)
    requires Spans(kids, lo, hi) && forall i :: 0 <= i < |kids| ==> kids[i].pred == p
    ensures Tiles(kids, p, lo, hi)
  {
  }

  lemma {:induction false} SeqIsTiled(nodes: seq<Ast>, k: nat)
    requires forall i :: 0 <= i < |nodes| ==> !nodes[i].Null? && NoHoles(nodes[i])
    ensures Tiled(Seq(nodes), k)
  {
    SeqSpans(nodes, k, k + 1);
    ChainTiles(KidsOfSeq(nodes, k, k + 1), k, k + 1, k + 1 + SizeSeq(nodes));
  }

  lemma {:induction false} SwitchTiled(a: Ast, k: nat, kids: seq<Kid>)
    requires a.Switch? && kids == KidsOfCases(a.cases, k, k + 1) && Tiles(kids, k, k + 1, k + 1 + SizeCases(a.cases))
    requires forall i :: 0 <= i < |kids| ==> kids[i].pred == k
    ensures Tiled(a, k)
  {
    assert Kids(a, k) == kids && Size(a) == 1 + SizeCases(a.cases);
  }

  lemma {:induction false} SwitchIsTiled(on: Scrutinee, cases: seq<Case>, v: bool, d: bool, k: nat)
    requires forall i :: 0 <= i < |cases| ==> !cases[i].body.Null? && NoHoles(cases[i].body)
    ensures Tiled(Switch(on, cases, v, d), k)
  {
    var kids := KidsOfCases(cases, k, k + 1);
    CasesSpan(cases, k, k + 1);
    forall i | 0 <= i < |kids| ensures !kids[i].tree.Null? && NoHoles(kids[i].tree) {
      assert kids[i].tree == cases[i].body;
    }
    FanTiles(kids, k, k + 1, k + 1 + SizeCases(cases));
    SwitchTiled(Switch(on, cases, v, d), k, kids);
  }

  lemma {:induction false} IfIsTiled(c: Condition, t: Ast, e: Ast, k: nat)
    requires NoHoles(t) && NoHoles(e)
    ensures Tiled(If(c, t, e), k)
  {
    OptionalsTile(t, e, k);
  }

  lemma {:induction false} LeafIsTiled(a: Ast, k: nat)
    requires !a.Null? && !a.If? && !a.Scs? && !a.Seq? && !a.Switch?
    ensures Tiled(a, k)
  {
  }

  lemma {:induction false} KidsTile(a: Ast, k: nat)
    requires !a.Null? && NoHoles(a)
    ensures Tiled(a, k)
    ensures Tiles(Kids(a, k), k, k + 1, k + Size(a))
  {
    match a
    case If(c, thn, els) => IfIsTiled(c, thn, els, k);
    case Scs(kind, body) => LoopIsTiled(kind, body, k);
    case Seq(nodes) => SeqIsTiled(nodes, k);
    case Switch(on, cases, v, d) => SwitchIsTiled(on, cases, v, d, k);
    case _ => LeafIsTiled(a, k);
  }

  /** The kid that owns label `m`. */
  function Owner(kids: seq<Kid>, m: nat): (i: nat)
    ensures i <= |kids|
    ensures i < |kids| ==> kids[i].at <= m < kids[i].at + Size(kids[i].tree)
  {
    if kids == [] then 0
    else if kids[0].at <= m < kids[0].at + Size(kids[0].tree) then 0
    else 1 + Owner(kids[1..], m)
  }

  lemma {:induction false} TilesMonotone(kids: seq<Kid>, p: nat, lo: nat, hi: nat, i: nat, j: nat)
    requires Tiles(kids, p, lo, hi) && i < j < |kids|
    ensures kids[i].at + Size(kids[i].tree) <= kids[j].at
    decreases j
  {
    if i < j - 1 {
      TilesMonotone(kids, p, lo, hi, i, j - 1);
      assert Adjacent(kids, j - 1);
    } else {
      assert Adjacent(kids, i);
    }
  }

  lemma {:induction false} TilesBounds(kids: seq<Kid>, p: nat, lo: nat, hi: nat, i: nat)
    requires Tiles(kids, p, lo, hi) && i < |kids|
    ensures lo <= kids[i].at && kids[i].at + Size(kids[i].tree) <= hi
  {
    if i > 0 { TilesMonotone(kids, p, lo, hi, 0, i); }
    if i < |kids| - 1 { TilesMonotone(kids, p, lo, hi, i, |kids| - 1); }
  }

  /** Every label between the bounds has an owner. */
  lemma {:induction false} OwnerInSpan(kids: seq<Kid>, lo: nat, hi: nat, m: nat)
    requires Spans(kids, lo, hi) && lo <= m < hi
    ensures Owner(kids, m) < |kids|
    decreases |kids|
  {
    if kids != [] && m >= kids[0].at + Size(kids[0].tree) {
      var rest := kids[1..];
      if rest == [] { assert false; }
      assert Adjacent(kids, 0);
      forall i | 0 <= i < |rest| - 1 ensures Adjacent(rest, i) {
        assert Adjacent(kids, i + 1);
      }
      OwnerInSpan(rest, rest[0].at, hi, m);
    }
  }

  /** The only node with an edge to `m`; `k` stands in for a node outside the tree. */
  function Parent(a: Ast, k: nat, m: nat): (p: nat)
    decreases a
  {
    var kids := Kids(a, k);
    var i := Owner(kids, m);
    if i == |kids| then k
    else if m == kids[i].at then kids[i].pred
    else Parent(kids[i].tree, kids[i].at, m)
  }

  lemma {:induction false} PredIsBefore(kids: seq<Kid>, k: nat, hi: nat, i: nat)
    requires Tiles(kids, k, k + 1, hi) && i < |kids|
    ensures k <= kids[i].pred < kids[i].at
  {
    TilesBounds(kids, k, k + 1, hi, i);
    assert Linked(kids, k, i);
    if kids[i].pred != k {
      TilesMonotone(kids, k, k + 1, hi, i - 1, i);
      TilesBounds(kids, k, k + 1, hi, i - 1);
      assert Size(kids[i - 1].tree) > 0;
    }
  }

  lemma {:induction false} ParentIsBefore(a: Ast, k: nat, m: nat)
    requires !a.Null? && NoHoles(a) && k < m < k + Size(a)
    ensures k <= Parent(a, k, m) < m
    decreases a
  {
    KidsTile(a, k);
    var kids, hi := Kids(a, k), k + Size(a);
    OwnerInSpan(kids, k + 1, hi, m);
    var i := Owner(kids, m);
    if m == kids[i].at {
      PredIsBefore(kids, k, hi, i);
    } else {
      TilesBounds(kids, k, k + 1, hi, i);
      ParentIsBefore(kids[i].tree, kids[i].at, m);
    }
  }

  /** A tree without holes, rooted at label `k`. */
  predicate Rooted(a: Ast, k: nat) {
    !a.Null? && NoHoles(a)
  }

  predicate Inside(a: Ast, k: nat, m: nat) {
    k <= m < k + Size(a)
  }

  predicate Edge(a: Ast, k: nat, x: nat, y: nat) {
    k < y < k + Size(a) && Parent(a, k, y) == x
  }

  // ----- Paths, reachability and dominance -----

  predicate Follows(a: Ast, k: nat, p: seq<nat>, i: nat)
    requires i + 1 < |p|
  {
    Edge(a, k, p[i], p[i + 1])
  }

  predicate IsPath(a: Ast, k: nat, p: seq<nat>) {
    p != [] && forall i :: 0 <= i < |p| - 1 ==> Follows(a, k, p, i)
  }

  ghost predicate Reaches(a: Ast, k: nat, d: nat, n: nat) {
    exists p :: IsPath(a, k, p) && p[0] == d && p[|p| - 1] == n
  }

  /** Every path from the root to `n` goes through `d`. */
  ghost predicate Dominates(a: Ast, k: nat, d: nat, n: nat) {
    forall p :: IsPath(a, k, p) && p[0] == k && p[|p| - 1] == n ==> d in p
  }

  /** `d` is `n`, or one of the nodes above it. */
  predicate Above(a: Ast, k: nat, d: nat, n: nat)
    requires Rooted(a, k) && Inside(a, k, n)
    decreases n
  {
    d == n || (k < n && (ParentIsBefore(a, k, n); Above(a, k, d, Parent(a, k, n))))
  }

  /** The path from `d` down to `n`. */
  function PathTo(a: Ast, k: nat, d: nat, n: nat): (p: seq<nat>)
    requires Rooted(a, k) && Inside(a, k, n) && Above(a, k, d, n)
    ensures p != [] && p[0] == d && p[|p| - 1] == n
    decreases n
  {
    if d == n then [n]
    else
      ParentIsBefore(a, k, n);
      PathTo(a, k, d, Parent(a, k, n)) + [n]
  }

  lemma {:induction false} PathToIsPath(a: Ast, k: nat, d: nat, n: nat)
    requires Rooted(a, k) && Inside(a, k, n) && Above(a, k, d, n)
    ensures IsPath(a, k, PathTo(a, k, d, n))
    decreases n
  {
    if d != n {
      ParentIsBefore(a, k, n);
      PathToIsPath(a, k, d, Parent(a, k, n));
      var p := PathTo(a, k, d, Parent(a, k, n));
      forall i | 0 <= i < |p| ensures Follows(a, k, p + [n], i) {
        if i < |p| - 1 { assert Follows(a, k, p, i); }
      }
    }
  }

  lemma {:induction false} AboveIsOrdered(a: Ast, k: nat, d: nat, n: nat)
    requires Rooted(a, k) && Inside(a, k, n) && Above(a, k, d, n)
    ensures k <= d <= n
    decreases n
  {
    if d != n {
      ParentIsBefore(a, k, n);
      AboveIsOrdered(a, k, d, Parent(a, k, n));
    }
  }

  lemma {:induction false} AboveIsTransitive(a: Ast, k: nat, x: nat, y: nat, z: nat)
    requires Rooted(a, k) && Inside(a, k, y) && Inside(a, k, z) && Above(a, k, x, y) && Above(a, k, y, z)
    ensures Above(a, k, x, z)
    decreases z
  {
    if y != z {
      ParentIsBefore(a, k, z);
      AboveIsTransitive(a, k, x, y, Parent(a, k, z));
    }
  }

  lemma {:induction false} PathStaysAbove(a: Ast, k: nat, p: seq<nat>, i: nat)
    requires Rooted(a, k) && IsPath(a, k, p) && i < |p| && Inside(a, k, p[|p| - 1])
    ensures Inside(a, k, p[i]) && Above(a, k, p[i], p[|p| - 1])
    decreases |p| - i
  {
    if i < |p| - 1 {
      PathStaysAbove(a, k, p, i + 1);
      assert Follows(a, k, p, i);
      EdgeStaysAbove(a, k, p[i], p[i + 1], p[|p| - 1]);
    }
  }

  lemma {:induction false} EdgeStaysAbove(a: Ast, k: nat, x: nat, y: nat, n: nat)
    requires Rooted(a, k) && Edge(a, k, x, y) && Inside(a, k, n) && Above(a, k, y, n)
    ensures Inside(a, k, x) && Above(a, k, x, n)
  {
    ParentIsBefore(a, k, y);
    ParentIsAbove(a, k, x, y);
    AboveIsTransitive(a, k, x, y, n);
  }

  lemma {:induction false} ParentIsAbove(a: Ast, k: nat, x: nat, y: nat)
    requires Rooted(a, k) && Edge(a, k, x, y) && Inside(a, k, x)
    ensures Above(a, k, x, y)
  {
    ParentIsBefore(a, k, y);
    assert Above(a, k, x, x);
  }

  /** The nodes above a node form a chain. */
  lemma {:induction false} AboveIsAChain(a: Ast, k: nat, x: nat, y: nat, n: nat)
    requires Rooted(a, k) && Inside(a, k, n) && Above(a, k, x, n) && Above(a, k, y, n) && x <= y
    ensures Inside(a, k, y) && Above(a, k, x, y)
    decreases n
  {
    AboveIsOrdered(a, k, x, n);
    AboveIsOrdered(a, k, y, n);
    if y != n && x != n {
      ParentIsBefore(a, k, n);
      AboveIsAChain(a, k, x, y, Parent(a, k, n));
    }
  }

  lemma {:induction false} RootIsAbove(a: Ast, k: nat, n: nat)
    requires Rooted(a, k) && Inside(a, k, n)
    ensures Above(a, k, k, n)
    decreases n
  {
    if n != k {
      ParentIsBefore(a, k, n);
      RootIsAbove(a, k, Parent(a, k, n));
    }
  }

  lemma {:induction false} PathsPassBy(a: Ast, k: nat, d: nat, q: seq<nat>)
    requires Rooted(a, k) && IsPath(a, k, q) && q[0] == k && Inside(a, k, q[|q| - 1]) && Above(a, k, d, q[|q| - 1])
    ensures d in q
    decreases |q|
  {
    var n := q[|q| - 1];
    if d != n {
      AboveIsOrdered(a, k, d, n);
      var front := q[..|q| - 1];
      assert Follows(a, k, q, |q| - 2);
      ParentIsBefore(a, k, n);
      forall i | 0 <= i < |front| - 1 ensures Follows(a, k, front, i) { assert Follows(a, k, q, i); }
      PathsPassBy(a, k, d, front);
    }
  }

  /** On this graph reachability and dominance are the same relation. */
  lemma {:induction false} DominanceIsReachability(a: Ast, k: nat, d: nat, n: nat)
    requires Rooted(a, k) && Inside(a, k, n)
    ensures Reaches(a, k, d, n) <==> Dominates(a, k, d, n)
    ensures Reaches(a, k, d, n) <==> Above(a, k, d, n)
  {
    if Reaches(a, k, d, n) {
      var p :| IsPath(a, k, p) && p[0] == d && p[|p| - 1] == n;
      PathStaysAbove(a, k, p, 0);
    }
    if Above(a, k, d, n) {
      PathToIsPath(a, k, d, n);
      forall q | IsPath(a, k, q) && q[0] == k && q[|q| - 1] == n ensures d in q {
        PathsPassBy(a, k, d, q);
      }
    }
    if Dominates(a, k, d, n) {
      RootIsAbove(a, k, n);
      PathToIsPath(a, k, k, n);
      var p := PathTo(a, k, k, n);
      var i :| 0 <= i < |p| && p[i] == d;
      PathStaysAbove(a, k, p, i);
    }
  }

  // ----- How the relation follows the structure -----

  lemma {:induction false} OwnerIs(kids: seq<Kid>, p: nat, lo: nat, hi: nat, m: nat, i: nat)
    requires Tiles(kids, p, lo, hi) && i < |kids| && kids[i].at <= m < kids[i].at + Size(kids[i].tree)
    ensures Owner(kids, m) == i
  {
    TilesBounds(kids, p, lo, hi, i);
    OwnerInSpan(kids, lo, hi, m);
    var j := Owner(kids, m);
    if j < i {
      TilesMonotone(kids, p, lo, hi, j, i);
    } else if i < j {
      TilesMonotone(kids, p, lo, hi, i, j);
    }
  }

  /** The kinds of nodes above a node in the subtree of kid `i`: the root, nodes of
      that subtree, and in a sequence the kids before; nothing inside other kids. */
  predicate SeenFrom(a: Ast, k: nat, i: nat, d: nat, n: nat)
    requires Rooted(a, k) && i < |Kids(a, k)|
  {
    var kid := Kids(a, k)[i];
    || d == k
    || (Rooted(kid.tree, kid.at) && Inside(kid.tree, kid.at, n) && Inside(kid.tree, kid.at, d)
        && Above(kid.tree, kid.at, d, n))
    || (a.Seq? && exists j :: 0 <= j < i && d == Kids(a, k)[j].at)
  }

  lemma {:induction false} KidIsRooted(a: Ast, k: nat, i: nat, n: nat)
    requires Rooted(a, k) && i < |Kids(a, k)|
    requires Inside(Kids(a, k)[i].tree, Kids(a, k)[i].at, n)
    ensures Inside(a, k, n) && k < n && Rooted(Kids(a, k)[i].tree, Kids(a, k)[i].at)
    ensures Owner(Kids(a, k), n) == i
  {
    KidsTile(a, k);
    TilesBounds(Kids(a, k), k, k + 1, k + Size(a), i);
    OwnerIs(Kids(a, k), k, k + 1, k + Size(a), n, i);
  }

  lemma {:induction false} AboveRoot(a: Ast, k: nat, d: nat)
    requires Rooted(a, k) && Above(a, k, d, k)
    ensures d == k
  {
    AboveIsOrdered(a, k, d, k);
  }

  lemma {:induction false} SeenFromNextKid(a: Ast, k: nat, i: nat, d: nat)
    requires Rooted(a, k) && a.Seq? && 0 < i < |Kids(a, k)|
    requires SeenFrom(a, k, i - 1, d, Kids(a, k)[i - 1].at)
    ensures SeenFrom(a, k, i, d, Kids(a, k)[i].at)
  {
    var kids := Kids(a, k);
    if d != k && !(exists j :: 0 <= j < i - 1 && d == kids[j].at) {
      AboveRoot(kids[i - 1].tree, kids[i - 1].at, d);
    }
  }

  /** Above a node in the subtree of kid `i` there is only what is seen from there. */
  lemma {:induction false} AboveInKid(a: Ast, k: nat, i: nat, d: nat, n: nat)
    requires Rooted(a, k) && i < |Kids(a, k)|
    requires Inside(Kids(a, k)[i].tree, Kids(a, k)[i].at, n)
    requires Inside(a, k, n) ==> Above(a, k, d, n)
    ensures SeenFrom(a, k, i, d, n)
    decreases n
  {
    KidIsRooted(a, k, i, n);
    var kid := Kids(a, k)[i];
    if d == n {
    } else if n == kid.at {
      ParentIsBefore(a, k, n);
      if kid.pred == k {
        AboveRoot(a, k, d);
      } else {
        PreviousKid(a, k, i);
        AboveInKid(a, k, i - 1, d, kid.pred);
        SeenFromNextKid(a, k, i, d);
      }
    } else {
      ParentIsBefore(a, k, n);
      ParentIsBefore(kid.tree, kid.at, n);
      AboveInKid(a, k, i, d, Parent(a, k, n));
    }
  }

  lemma {:induction false} PreviousKid(a: Ast, k: nat, i: nat)
    requires Rooted(a, k) && i < |Kids(a, k)| && Kids(a, k)[i].pred != k
    ensures a.Seq? && i > 0 && Kids(a, k)[i].pred == Kids(a, k)[i - 1].at
    ensures Inside(Kids(a, k)[i - 1].tree, Kids(a, k)[i - 1].at, Kids(a, k)[i].pred)
  {
    KidsTile(a, k);
    assert Linked(Kids(a, k), k, i);
  }
}

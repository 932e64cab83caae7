/** The normalizing transformations of the GHAST, as functions on trees: flipping
    empty `then` branches, flattening nested sequences, and dropping sequences of
    fewer than two nodes. */
module Canonicalize {
  import opened Ghast

  function Negated(c: Condition): Condition {
    Condition(Not(c.expr), c.weaved, c.origin)
  }

  // ----- Flipping -----

  function Flip(a: Ast): Ast {
    match a
    case Seq(nodes) => Seq(FlipSeq(nodes))
    case If(cond, thn, els) =>
      if thn.Null? then If(Negated(cond), Flip(els), Null) else If(cond, Flip(thn), Flip(els))
    case Scs(kind, body) => Scs(kind, Flip(body))
    case Switch(on, cases, v, d) => Switch(on, FlipCases(cases), v, d)
    case _ => a
  }

  function FlipSeq(nodes: seq<Ast>): (r: seq<Ast>)
    ensures |r| == |nodes|
    ensures forall i :: 0 <= i < |r| ==> r[i] == Flip(nodes[i])
  {
    if nodes == [] then [] else [Flip(nodes[0])] + FlipSeq(nodes[1..])
  }

  function FlipCases(cases: seq<Case>): (r: seq<Case>)
    ensures |r| == |cases|
    ensures forall i :: 0 <= i < |r| ==> r[i] == Case(cases[i].labels, Flip(cases[i].body))
  {
    if cases == [] then [] else [Case(cases[0].labels, Flip(cases[0].body))] + FlipCases(cases[1..])
  }

  lemma {:induction false} FlipPreserves(w: World, a: Ast)
    ensures Equivalent(w, a, Flip(a))
  {
    match a
    case Seq(nodes) =>
      forall i | 0 <= i < |nodes| ensures Equivalent(w, nodes[i], FlipSeq(nodes)[i]) { FlipPreserves(w, nodes[i]); }
      SeqCongruence(w, nodes, FlipSeq(nodes));
    case Scs(kind, body) =>
      FlipPreserves(w, body);
      ScsCongruence(w, kind, body, Flip(body));
    case If(cond, thn, els) =>
      FlipPreserves(w, thn);
      FlipPreserves(w, els);
      if thn.Null? {
        FlippedIf(w, cond, els, Flip(els));
      } else {
        IfCongruence(w, cond, thn, Flip(thn), els, Flip(els));
      }
    case Switch(on, cases, v, d) =>
      forall i | 0 <= i < |cases| ensures Equivalent(w, cases[i].body, FlipCases(cases)[i].body) {
        FlipPreserves(w, cases[i].body);
      }
      SwitchCongruence(w, on, cases, FlipCases(cases), v, d, v, d);
    case _ =>
  }

  lemma FlippedIf(w: World, cond: Condition, els: Ast, els': Ast)
    requires Equivalent(w, els, els')
    ensures Equivalent(w, If(cond, Null, els), If(Negated(cond), els', Null))
  {
    forall fuel: nat, h: History
      ensures Exec(w, fuel, If(cond, Null, els), h) == Exec(w, fuel, If(Negated(cond), els', Null), h)
    {
      assert RunCondition(Negated(cond), h) == RunCondition(cond, h);
      assert Exec(w, fuel, els, RunCondition(cond, h)) == Exec(w, fuel, els', RunCondition(cond, h));
    }
  }

  // ----- Collapsing -----

  function Splice(a: Ast): seq<Ast> {
    if a.Seq? then a.nodes else [a]
  }

  function Flatten(nodes: seq<Ast>): seq<Ast> {
    if nodes == [] then [] else Splice(nodes[0]) + Flatten(nodes[1..])
  }

  function Collapse(a: Ast): Ast {
    match a
    case Seq(nodes) => Seq(Flatten(CollapseSeq(nodes)))
    case If(cond, thn, els) => If(cond, Collapse(thn), Collapse(els))
    case Scs(kind, body) => Scs(kind, Collapse(body))
    case Switch(on, cases, v, d) => Switch(on, CollapseCases(cases), v, d)
    case _ => a
  }

  function CollapseSeq(nodes: seq<Ast>): (r: seq<Ast>)
    ensures |r| == |nodes|
    ensures forall i :: 0 <= i < |r| ==> r[i] == Collapse(nodes[i])
  {
    if nodes == [] then [] else [Collapse(nodes[0])] + CollapseSeq(nodes[1..])
  }

  function CollapseCases(cases: seq<Case>): (r: seq<Case>)
    ensures |r| == |cases|
    ensures forall i :: 0 <= i < |r| ==> r[i] == Case(cases[i].labels, Collapse(cases[i].body))
  {
    if cases == [] then [] else [Case(cases[0].labels, Collapse(cases[0].body))] + CollapseCases(cases[1..])
  }

  lemma {:induction false} FlattenRuns(w: World, fuel: nat, nodes: seq<Ast>, h: History)
    ensures ExecSeq(w, fuel, Flatten(nodes), h) == ExecSeq(w, fuel, nodes, h)
    decreases |nodes|
  {
    if nodes != [] {
      ExecSeqAppend(w, fuel, Splice(nodes[0]), Flatten(nodes[1..]), h);
      var r := Exec(w, fuel, nodes[0], h);
      SpliceRuns(w, fuel, nodes[0], h);
      FlattenRuns(w, fuel, nodes[1..], r.h);
    }
  }

  lemma SpliceRuns(w: World, fuel: nat, a: Ast, h: History)
    ensures ExecSeq(w, fuel, Splice(a), h) == Exec(w, fuel, a, h)
  {
    if !a.Seq? {
      var r := Exec(w, fuel, a, h);
      assert ExecSeq(w, fuel, [a], h) == if r.out.Fell? then ExecSeq(w, fuel, [], r.h) else r;
    }
  }

  lemma {:induction false} CollapsePreserves(w: World, a: Ast)
    ensures Equivalent(w, a, Collapse(a))
  {
    match a
    case Seq(nodes) =>
      var collapsed := CollapseSeq(nodes);
      forall i | 0 <= i < |nodes| ensures Equivalent(w, nodes[i], collapsed[i]) { CollapsePreserves(w, nodes[i]); }
      SeqCongruence(w, nodes, collapsed);
      forall fuel: nat, h: History ensures Exec(w, fuel, a, h) == Exec(w, fuel, Collapse(a), h) {
        assert Exec(w, fuel, a, h) == Exec(w, fuel, Seq(collapsed), h);
        FlattenRuns(w, fuel, collapsed, h);
      }
    case Scs(kind, body) =>
      CollapsePreserves(w, body);
      ScsCongruence(w, kind, body, Collapse(body));
    case If(cond, thn, els) =>
      CollapsePreserves(w, thn);
      CollapsePreserves(w, els);
      IfCongruence(w, cond, thn, Collapse(thn), els, Collapse(els));
    case Switch(on, cases, v, d) =>
      forall i | 0 <= i < |cases| ensures Equivalent(w, cases[i].body, CollapseCases(cases)[i].body) {
        CollapsePreserves(w, cases[i].body);
      }
      SwitchCongruence(w, on, cases, CollapseCases(cases), v, d, v, d);
    case _ =>
  }

  // ----- Short sequences -----

  predicate HasDefault(cases: seq<Case>) {
    DefaultCase(cases) < |cases|
  }

  /** A sequence of one node becomes that node, an empty one disappears. A case
      that disappears is dropped, unless a default would then catch its labels. */
  function Shorten(a: Ast): Ast {
    match a
    case Seq(nodes) =>
      if nodes == [] then Null
      else if |nodes| == 1 then Shorten(nodes[0])
      else Seq(ShortenSeq(nodes))
    case If(cond, thn, els) => If(cond, Shorten(thn), Shorten(els))
    case Scs(kind, body) => Scs(kind, Shorten(body))
    case Switch(on, cases, v, d) => Switch(on, ShortenCases(cases, HasDefault(cases)), v, d)
    case _ => a
  }

  function ShortenSeq(nodes: seq<Ast>): (r: seq<Ast>)
    ensures |r| == |nodes|
    ensures forall i :: 0 <= i < |r| ==> r[i] == Shorten(nodes[i])
  {
    if nodes == [] then [] else [Shorten(nodes[0])] + ShortenSeq(nodes[1..])
  }

  function ShortenCases(cases: seq<Case>, hasDefault: bool): seq<Case> {
    if cases == [] then []
    else
      var body := Shorten(cases[0].body);
      var rest := ShortenCases(cases[1..], hasDefault);
      if !body.Null? then [Case(cases[0].labels, body)] + rest
      else if hasDefault then [Case(cases[0].labels, SwitchBreak)] + rest
      else rest
  }

  /** No two cases of a switch share a label. */
  predicate DistinctLabels(a: Ast) {
    match a
    case If(_, thn, els) => DistinctLabels(thn) && DistinctLabels(els)
    case Scs(_, body) => DistinctLabels(body)
    case Seq(nodes) => forall i :: 0 <= i < |nodes| ==> DistinctLabels(nodes[i])
    case Switch(_, cases, _, _) =>
      && Disjoint(cases)
      && forall i :: 0 <= i < |cases| ==> DistinctLabels(cases[i].body)
    case _ => true
  }

  predicate Disjoint(cases: seq<Case>) {
    forall i, j, v :: 0 <= i < j < |cases| && v in cases[i].labels ==> v !in cases[j].labels
  }

  /** Everything that a switch on value `v` does after computing its scrutinee. */
  function RunCases(w: World, fuel: nat, cases: seq<Case>, v: nat, h: History): Res {
    var k := SelectCase(cases, v);
    if k < |cases| then LeaveSwitch(Exec(w, fuel, cases[k].body, h)) else Res(Fell, h)
  }

  lemma {:induction false} ShortenPreserves(w: World, a: Ast)
    requires DistinctLabels(a)
    ensures Equivalent(w, a, Shorten(a))
  {
    match a
    case Seq(nodes) =>
      forall i | 0 <= i < |nodes| ensures Equivalent(w, nodes[i], Shorten(nodes[i])) { ShortenPreserves(w, nodes[i]); }
      if |nodes| > 1 {
        SeqCongruence(w, nodes, ShortenSeq(nodes));
      } else if |nodes| == 1 {
        forall fuel: nat, h: History ensures Exec(w, fuel, a, h) == Exec(w, fuel, Shorten(a), h) {
          SpliceRuns(w, fuel, Seq([nodes[0]]), h);
          assert nodes == [nodes[0]];
          var r := Exec(w, fuel, nodes[0], h);
          assert ExecSeq(w, fuel, nodes, h) == if r.out.Fell? then ExecSeq(w, fuel, [], r.h) else r;
        }
      }
    case Scs(kind, body) =>
      ShortenPreserves(w, body);
      ScsCongruence(w, kind, body, Shorten(body));
    case If(cond, thn, els) =>
      ShortenPreserves(w, thn);
      ShortenPreserves(w, els);
      IfCongruence(w, cond, thn, Shorten(thn), els, Shorten(els));
    case Switch(on, cases, v, d) =>
      forall i | 0 <= i < |cases| ensures Equivalent(w, cases[i].body, Shorten(cases[i].body)) {
        ShortenPreserves(w, cases[i].body);
      }
      forall fuel: nat, h: History ensures Exec(w, fuel, a, h) == Exec(w, fuel, Shorten(a), h) {
        var h1 := RunScrutinee(on, h);
        ShortenedCasesRun(w, fuel, cases, ScrutineeValue(w, on, h1), h1);
      }
    case _ =>
  }

  lemma ShortenedCasesRun(w: World, fuel: nat, cases: seq<Case>, v: nat, h: History)
    requires Disjoint(cases)
    requires forall i :: 0 <= i < |cases| ==> Equivalent(w, cases[i].body, Shorten(cases[i].body))
    ensures RunCases(w, fuel, ShortenCases(cases, HasDefault(cases)), v, h) == RunCases(w, fuel, cases, v, h)
  {
    if HasDefault(cases) {
      KeptCases(cases);
      KeptCasesRun(w, fuel, cases, ShortenCases(cases, true), v, h);
    } else {
      LabelledAfterErasing(w, fuel, cases, v, h);
    }
  }

  lemma KeptCasesRun(w: World, fuel: nat, cases: seq<Case>, kept: seq<Case>, v: nat, h: History)
    requires |kept| == |cases|
    requires forall i :: 0 <= i < |cases| ==> Equivalent(w, cases[i].body, Shorten(cases[i].body))
    requires forall i :: 0 <= i < |cases| ==>
               && kept[i].labels == cases[i].labels
               && var b := Shorten(cases[i].body); kept[i].body == if b.Null? then SwitchBreak else b
    ensures RunCases(w, fuel, kept, v, h) == RunCases(w, fuel, cases, v, h)
  {
    SelectDependsOnLabels(cases, kept, v);
    var k := SelectCase(cases, v);
    if k < |cases| {
      var b := Shorten(cases[k].body);
      assert Exec(w, fuel, cases[k].body, h) == Exec(w, fuel, b, h);
      assert Exec(w, fuel, Null, h) == Res(Fell, h) && Exec(w, fuel, SwitchBreak, h) == Res(BrokeSwitch, h);
    }
  }

  lemma {:induction false} KeptCases(cases: seq<Case>)
    ensures var r := ShortenCases(cases, true);
            && |r| == |cases|
            && forall i :: 0 <= i < |r| ==>
                 && r[i].labels == cases[i].labels
                 && var b := Shorten(cases[i].body); r[i].body == if b.Null? then SwitchBreak else b
  {
    if cases != [] { KeptCases(cases[1..]); }
  }

  lemma {:induction false} NoDefaultStays(cases: seq<Case>)
    requires !HasDefault(cases)
    ensures !HasDefault(ShortenCases(cases, false))
  {
    if cases != [] { NoDefaultStays(cases[1..]); }
  }

  lemma {:induction false} LabelledAfterErasing(w: World, fuel: nat, cases: seq<Case>, v: nat, h: History)
    requires Disjoint(cases) && !HasDefault(cases)
    requires forall i :: 0 <= i < |cases| ==> Equivalent(w, cases[i].body, Shorten(cases[i].body))
    ensures RunCases(w, fuel, ShortenCases(cases, false), v, h) == RunCases(w, fuel, cases, v, h)
  {
    NoDefaultStays(cases);
    if cases != [] {
      var first, rest := cases[0], cases[1..];
      var body := Shorten(first.body);
      NoDefaultStays(rest);
      assert Exec(w, fuel, first.body, h) == Exec(w, fuel, body, h) by { assert Equivalent(w, first.body, body); }
      LabelledAfterErasing(w, fuel, rest, v, h);
      if v in first.labels && body.Null? {
        forall j | 0 <= j < |rest| ensures v !in rest[j].labels { assert rest[j] == cases[j + 1]; }
        NotLabelled(rest, v);
        assert LabelledCase(cases, v) == 0;
      }
    }
  }

  lemma {:induction false} NotLabelled(cases: seq<Case>, v: nat)
    requires forall j :: 0 <= j < |cases| ==> v !in cases[j].labels
    ensures LabelledCase(cases, v) == |cases|
  {
    if cases != [] { NotLabelled(cases[1..], v); }
  }

  // ----- The whole normalization -----

  function Canonical(a: Ast): Ast {
    Shorten(Collapse(Flip(a)))
  }

  /** No null child where a node is expected, no empty sequence, no branchless `if`. */
  predicate Solid(a: Ast) {
    match a
    case Null => false
    case If(_, thn, els) =>
      (!thn.Null? || !els.Null?) && (thn.Null? || Solid(thn)) && (els.Null? || Solid(els))
    case Scs(_, body) => body.Null? || Solid(body)
    case Seq(nodes) => nodes != [] && forall i :: 0 <= i < |nodes| ==> Solid(nodes[i])
    case Switch(_, cases, _, _) => forall i :: 0 <= i < |cases| ==> Solid(cases[i].body)
    case _ => true
  }

  predicate ThenFirst(a: Ast) {
    match a
    case If(_, thn, els) => !thn.Null? && ThenFirst(thn) && ThenFirst(els)
    case Scs(_, body) => ThenFirst(body)
    case Seq(nodes) => forall i :: 0 <= i < |nodes| ==> ThenFirst(nodes[i])
    case Switch(_, cases, _, _) => forall i :: 0 <= i < |cases| ==> ThenFirst(cases[i].body)
    case _ => true
  }

  predicate FlatSequences(a: Ast) {
    match a
    case If(_, thn, els) => FlatSequences(thn) && FlatSequences(els)
    case Scs(_, body) => FlatSequences(body)
    case Seq(nodes) => forall i :: 0 <= i < |nodes| ==> !nodes[i].Seq? && FlatSequences(nodes[i])
    case Switch(_, cases, _, _) => forall i :: 0 <= i < |cases| ==> FlatSequences(cases[i].body)
    case _ => true
  }

  predicate LongSequences(a: Ast) {
    match a
    case If(_, thn, els) => LongSequences(thn) && LongSequences(els)
    case Scs(_, body) => LongSequences(body)
    case Seq(nodes) => |nodes| >= 2 && forall i :: 0 <= i < |nodes| ==> LongSequences(nodes[i])
    case Switch(_, cases, _, _) => forall i :: 0 <= i < |cases| ==> LongSequences(cases[i].body)
    case _ => true
  }

  /** The invariants of a normalized GHAST. */
  predicate Normal(a: Ast) {
    Solid(a) && ThenFirst(a) && FlatSequences(a) && LongSequences(a)
  }

  lemma {:induction false} FlipNormal(a: Ast)
    requires Solid(a)
    ensures Solid(Flip(a)) && ThenFirst(Flip(a)) && (DistinctLabels(a) ==> DistinctLabels(Flip(a)))
  {
    match a
    case Seq(nodes) => forall i | 0 <= i < |nodes| { FlipNormal(nodes[i]); }
    case Scs(_, body) => if !body.Null? { FlipNormal(body); }
    case If(_, thn, els) =>
      if !thn.Null? { FlipNormal(thn); }
      if !els.Null? { FlipNormal(els); }
    case Switch(_, cases, _, _) => forall i | 0 <= i < |cases| { FlipNormal(cases[i].body); }
    case _ =>
  }

  lemma {:induction false} FlattenAll(nodes: seq<Ast>)
    requires forall i :: 0 <= i < |nodes| ==>
      Solid(nodes[i]) && ThenFirst(nodes[i]) && FlatSequences(nodes[i])
    ensures nodes != [] ==> Flatten(nodes) != []
    ensures forall i :: 0 <= i < |Flatten(nodes)| ==>
      var n := Flatten(nodes)[i]; !n.Seq? && Solid(n) && ThenFirst(n) && FlatSequences(n)
    ensures (forall i :: 0 <= i < |nodes| ==> DistinctLabels(nodes[i]))
        ==> forall i :: 0 <= i < |Flatten(nodes)| ==> DistinctLabels(Flatten(nodes)[i])
  {
    if nodes != [] {
      FlattenAll(nodes[1..]);
      var s := Splice(nodes[0]);
      assert forall i :: 0 <= i < |s| ==> !s[i].Seq? && Solid(s[i]) && ThenFirst(s[i]) && FlatSequences(s[i]);
      assert DistinctLabels(nodes[0]) ==> forall i :: 0 <= i < |s| ==> DistinctLabels(s[i]);
    }
  }

  lemma {:induction false} CollapseNormal(a: Ast)
    requires Solid(a) && ThenFirst(a)
    ensures var c := Collapse(a);
            Solid(c) && ThenFirst(c) && FlatSequences(c) && (DistinctLabels(a) ==> DistinctLabels(c))
  {
    match a
    case Seq(nodes) =>
      forall i | 0 <= i < |nodes| { CollapseNormal(nodes[i]); }
      FlattenAll(CollapseSeq(nodes));
    case Scs(_, body) => if !body.Null? { CollapseNormal(body); }
    case If(_, thn, els) =>
      CollapseNormal(thn);
      if !els.Null? { CollapseNormal(els); }
    case Switch(_, cases, _, _) => forall i | 0 <= i < |cases| { CollapseNormal(cases[i].body); }
    case _ =>
  }

  lemma {:induction false} SolidCasesKept(cases: seq<Case>, hasDefault: bool)
    requires forall i :: 0 <= i < |cases| ==> !Shorten(cases[i].body).Null?
    ensures var r := ShortenCases(cases, hasDefault);
            && |r| == |cases|
            && forall i :: 0 <= i < |r| ==> r[i].body == Shorten(cases[i].body)
  {
    if cases != [] { SolidCasesKept(cases[1..], hasDefault); }
  }

  lemma {:induction false} ShortenNormal(a: Ast)
    requires Solid(a) && ThenFirst(a) && FlatSequences(a)
    ensures Normal(Shorten(a)) && (Shorten(a).Seq? ==> a.Seq?)
  {
    match a
    case Seq(nodes) => forall i | 0 <= i < |nodes| { ShortenNormal(nodes[i]); }
    case Scs(_, body) => if !body.Null? { ShortenNormal(body); }
    case If(_, thn, els) =>
      ShortenNormal(thn);
      if !els.Null? { ShortenNormal(els); }
    case Switch(_, cases, _, _) =>
      forall i | 0 <= i < |cases| { ShortenNormal(cases[i].body); }
      SolidCasesKept(cases, HasDefault(cases));
    case _ =>
  }

  /** Canonicalization reaches the normal form and keeps the outcome and the trace
      of every run. */
  lemma CanonicalIsNormalAndEquivalent(w: World, a: Ast)
    requires Solid(a) && DistinctLabels(a)
    ensures Normal(Canonical(a)) && Equivalent(w, a, Canonical(a))
  {
    var f := Flip(a);
    var c := Collapse(f);
    FlipNormal(a);
    CollapseNormal(f);
    ShortenNormal(c);
    FlipPreserves(w, a);
    CollapsePreserves(w, f);
    ShortenPreserves(w, c);
    forall fuel: nat, h: History ensures Exec(w, fuel, a, h) == Exec(w, fuel, Canonical(a), h) {
      assert Exec(w, fuel, a, h) == Exec(w, fuel, f, h) == Exec(w, fuel, c, h);
    }
  }
}

/** A function from its structured AST to its text, with the declarations that the
    printer puts in front of the nodes computed on the way. */
module DeclaredFunction {
  import opened Ghast
  import opened CLang
  import opened Emission
  import opened CTokens
  import CodeGenerator
  import PrintedFunction
  import opened ScopeTree
  import opened Alap
  import opened Scoping
  import opened Declarations

  /** The tree after the break fixer, as it is printed. */
  function Fixed(a: Ast): Ast {
    Fix(a, false, 0)
  }

  /** The break fixer sets flags only. */
  lemma {:induction false} FixKeepsRooted(a: Ast, inLoop: bool, switches: nat)
    requires NoHoles(a)
    ensures (Fix(a, inLoop, switches).Null? <==> a.Null?) && NoHoles(Fix(a, inLoop, switches))
    decreases a
  {
    match a
    case If(_, thn, els) =>
      FixKeepsRooted(thn, inLoop, switches);
      FixKeepsRooted(els, inLoop, switches);
    case Scs(_, body) => FixKeepsRooted(body, true, 0);
    case Seq(nodes) => forall i | 0 <= i < |nodes| { FixKeepsRooted(nodes[i], inLoop, switches); }
    case Switch(_, cases, _, _) => forall i | 0 <= i < |cases| { FixKeepsRooted(cases[i].body, inLoop, switches + 1); }
    case _ =>
  }

  lemma {:induction false} FixKeepsDefaults(a: Ast, inLoop: bool, switches: nat)
    requires OneDefault(a)
    ensures OneDefault(Fix(a, inLoop, switches))
    decreases a
  {
    match a
    case If(_, thn, els) =>
      FixKeepsDefaults(thn, inLoop, switches);
      FixKeepsDefaults(els, inLoop, switches);
    case Scs(_, body) => FixKeepsDefaults(body, true, 0);
    case Seq(nodes) =>
      forall i | 0 <= i < |nodes| ensures OneDefault(FixSeq(nodes, inLoop, switches)[i]) {
        FixKeepsDefaults(nodes[i], inLoop, switches);
      }
    case Switch(_, cases, _, _) =>
      var fixed := FixCases(cases, inLoop, switches);
      forall i | 0 <= i < |cases| ensures OneDefault(fixed[i].body) {
        FixKeepsDefaults(cases[i].body, inLoop, switches + 1);
      }
      assert forall i, j :: 0 <= i < j < |cases| ==> fixed[i].labels != [] || fixed[j].labels != [];
    case _ =>
  }

  /** `order` is a post order of the scope graph of the printed tree, `uses` the variables
      of every block, and `vars` lists those that the blocks of the tree use. The text reads
      back as a C program that runs like the tree, declares every variable once, and has
      every use in the scope of that declaration. */
  method PrintWithDeclarations(a: Ast, order: seq<nat>, uses: Uses, vars: seq<nat>) returns (tokens: seq<Token>)
    requires Placed(a, false, 0) && CodeGenerator.HasBodies(a)
    requires Rooted(a, 0) && OneDefault(a) && IsPostOrder(Fixed(a), 0, order)
    requires forall v :: v in vars ==> UsageNodes(Pairs(Fixed(a), 0), uses, v) != {}
    requires forall p, v :: p in Pairs(Fixed(a), 0) && v in uses(p.0) ==> v in vars
    ensures ReadStmts(tokens).Got? && ReadStmts(tokens).rest == []
    ensures PrintedFunction.RunsLike(ReadStmts(tokens).value, a)
    ensures ScopedAll(uses, ReadStmts(tokens).value, {})
    ensures forall v :: v in vars ==> CountAll(ReadStmts(tokens).value, v) == 1
  {
    FixKeepsRooted(a, false, 0);
    FixKeepsDefaults(a, false, 0);
    var decls := DeclareVariables(Fixed(a), order, uses, vars);
    tokens := PrintedFunction.PrintFunction(a, decls);
  }
}

/** The loop of the normalization pass over a block in SSA form: it inserts new
    comparisons that it visits again, redirects the uses of the old ones, and
    erases those at the end. */
module ComparisonPass {
  import opened Numbers
  import opened TwosComplement

  /** An operand under any number of additions and subtractions of constants. */
  datatype Nest = Base(id: nat) | Shifted(isAdd: bool, c: nat, of: Nest)

  /** The instructions that the loop reads or writes; `Observe` stands for
      everything else that uses their results. */
  datatype Inst =
    | Cmp(name: nat, pred: Predicate, operand: Nest, rhs: nat)
    | CmpMinus(name: nat, pred: Predicate, operand: Nest, magnitude: nat)
    | NotOf(name: nat, operand: Nest)
    | Join(name: nat, isAnd: bool, a: nat, b: nat)
    | Observe(args: seq<nat>)

  // ----- Well-formed blocks -----

  predicate SizedNest(w: nat, n: Nest)
    requires w > 0
  {
    n.Shifted? ==> n.c < Pow2(w) && SizedNest(w, n.of)
  }

  /** The rewrite is right at every level of the nest, for the comparisons that it makes
      of the outer one as well. */
  predicate Movable(w: nat, p: Predicate, n: Nest, rhs: nat)
    requires w > 0 && SizedNest(w, n) && rhs < Pow2(w)
    decreases n
  {
    n.Shifted? ==>
      && MayMove(w, p, n.c, rhs) && Movable(w, p, n.of, NewRhs(w, n.isAdd, n.c, rhs))
      && (p.Relational? ==>
            var wrap := Wrapping(w, p.signed, p.rel, n.isAdd, n.c, rhs);
            Movable(w, wrap.pred, n.of, wrap.rhs))
  }

  predicate NoZeros(n: Nest) {
    n.Shifted? ==> n.c != 0 && NoZeros(n.of)
  }

  /** Constants other than zero can always be moved. */
  lemma {:induction false} NonZeroIsMovable(w: nat, p: Predicate, n: Nest, rhs: nat)
    requires w > 0 && SizedNest(w, n) && rhs < Pow2(w) && NoZeros(n)
    ensures Movable(w, p, n, rhs)
    decreases n
  {
    if n.Shifted? {
      NonZeroIsMovable(w, p, n.of, NewRhs(w, n.isAdd, n.c, rhs));
      if p.Relational? {
        var wrap := Wrapping(w, p.signed, p.rel, n.isAdd, n.c, rhs);
        NonZeroIsMovable(w, wrap.pred, n.of, wrap.rhs);
      }
    }
  }

  /** A comparison whose constant may not move is replaced with one that is wrong about
      some input, and only such a comparison is. */
  lemma {:induction false} MovableIffRight(w: nat, p: Predicate, isAdd: bool, c: nat, id: nat, rhs: nat)
    requires w > 0 && c < Pow2(w) && rhs < Pow2(w)
    ensures MayMove(w, p, c, rhs) <==> forall inputs: Inputs :: MovesRight(w, inputs, p, isAdd, c, id, rhs)
  {
    RewriteCorrectIff(w, p, isAdd, c, rhs);
    if MayMove(w, p, c, rhs) {
      forall inputs: Inputs ensures MovesRight(w, inputs, p, isAdd, c, id, rhs) {
        var x := NestValue(w, inputs, Base(id));
        assert Compare(w, p, Shift(w, isAdd, x, c), rhs) == Rewritten(w, p, isAdd, c, rhs, x);
      }
    } else {
      var x: nat :| x < Pow2(w) && Compare(w, p, Shift(w, isAdd, x, c), rhs) != Rewritten(w, p, isAdd, c, rhs, x);
      var inputs: Inputs := n => x;
      assert NestValue(w, inputs, Base(id)) == x;
      assert !MovesRight(w, inputs, p, isAdd, c, id, rhs);
    }
  }

  /** What replaces the comparison over one addition or subtraction has its value. */
  predicate MovesRight(w: nat, inputs: Inputs, p: Predicate, isAdd: bool, c: nat, id: nat, rhs: nat)
    requires w > 0 && c < Pow2(w) && rhs < Pow2(w)
  {
    Compare(w, p, NestValue(w, inputs, Shifted(isAdd, c, Base(id))), rhs)
    == Rewritten(w, p, isAdd, c, rhs, NestValue(w, inputs, Base(id)))
  }

  /** Constants fit into the width, and those that are moved may be. */
  predicate Sized(w: nat, i: Inst)
    requires w > 0
  {
    match i
    case Cmp(_, pred, operand, rhs) => SizedNest(w, operand) && rhs < Pow2(w) && Movable(w, pred, operand, rhs)
    case CmpMinus(_, _, operand, magnitude) => SizedNest(w, operand) && magnitude < Pow2(w)
    case NotOf(_, operand) => SizedNest(w, operand)
    case _ => true
  }

  function Uses(i: Inst): seq<nat> {
    match i
    case Join(_, _, a, b) => [a, b]
    case Observe(args) => args
    case _ => []
  }

  /** Definitions precede uses, names are unique and below `next`, and constants fit. */
  predicate WellFormed(w: nat, insts: seq<Inst>, defs: set<nat>, next: nat)
    requires w > 0
  {
    insts == [] ||
    (var i := insts[0];
     && Sized(w, i)
     && (forall u :: u in Uses(i) ==> u in defs)
     && (if i.Observe? then WellFormed(w, insts[1..], defs, next)
         else i.name !in defs && i.name < next && WellFormed(w, insts[1..], defs + {i.name}, next)))
  }

  function Defs(insts: seq<Inst>, defs: set<nat>): set<nat> {
    if insts == [] then defs
    else Defs(insts[1..], if insts[0].Observe? then defs else defs + {insts[0].name})
  }

  // ----- Meaning of a block -----

  /** The values of the opaque operands. */
  type Inputs = nat -> nat

  type Env = map<nat, bool>

  function NestValue(w: nat, inputs: Inputs, n: Nest): (v: nat)
    requires w > 0 && SizedNest(w, n)
    ensures v < Pow2(w)
  {
    match n
    case Base(id) => if inputs(id) < Pow2(w) then inputs(id) else 0
    case Shifted(isAdd, c, of) => Shift(w, isAdd, NestValue(w, inputs, of), c)
  }

  predicate ValueOf(env: Env, n: nat) {
    n in env && env[n]
  }

  predicate Compute(w: nat, inputs: Inputs, i: Inst, env: Env)
    requires w > 0 && Sized(w, i)
  {
    match i
    case Cmp(_, pred, operand, rhs) => Compare(w, pred, NestValue(w, inputs, operand), rhs)
    case CmpMinus(_, pred, operand, magnitude) =>
      Compare(w, pred, NestValue(w, inputs, operand), SubW(w, 0, magnitude))
    case NotOf(_, operand) => NestValue(w, inputs, operand) == 0
    case Join(_, isAnd, a, b) =>
      if isAnd then ValueOf(env, a) && ValueOf(env, b) else ValueOf(env, a) || ValueOf(env, b)
    case Observe(_) => false
  }

  function Step(w: nat, inputs: Inputs, i: Inst, env: Env): Env
    requires w > 0 && Sized(w, i)
  {
    if i.Observe? then env else env[i.name := Compute(w, inputs, i, env)]
  }

  function ValuesOf(args: seq<nat>, env: Env): (r: seq<bool>)
    ensures |r| == |args| && forall k :: 0 <= k < |r| ==> r[k] == ValueOf(env, args[k])
  {
    if args == [] then [] else [ValueOf(env, args[0])] + ValuesOf(args[1..], env)
  }

  /** Everything that the rest of the program sees of the block. */
  function Observations(w: nat, inputs: Inputs, insts: seq<Inst>, env: Env): seq<seq<bool>>
    requires w > 0 && forall k :: 0 <= k < |insts| ==> Sized(w, insts[k])
  {
    if insts == [] then []
    else
      (if insts[0].Observe? then [ValuesOf(insts[0].args, env)] else [])
      + Observations(w, inputs, insts[1..], Step(w, inputs, insts[0], env))
  }

  function EnvAfter(w: nat, inputs: Inputs, insts: seq<Inst>, env: Env): Env
    requires w > 0 && forall k :: 0 <= k < |insts| ==> Sized(w, insts[k])
  {
    if insts == [] then env else EnvAfter(w, inputs, insts[1..], Step(w, inputs, insts[0], env))
  }

  lemma {:induction false} ObservationsAppend(w: nat, inputs: Inputs, s: seq<Inst>, t: seq<Inst>, env: Env)
    requires w > 0
    requires forall k :: 0 <= k < |s| ==> Sized(w, s[k])
    requires forall k :: 0 <= k < |t| ==> Sized(w, t[k])
    ensures Observations(w, inputs, s + t, env)
         == Observations(w, inputs, s, env) + Observations(w, inputs, t, EnvAfter(w, inputs, s, env))
    decreases |s|
  {
    if s == [] {
      assert s + t == t;
    } else {
      assert (s + t)[0] == s[0] && (s + t)[1..] == s[1..] + t;
      ObservationsAppend(w, inputs, s[1..], t, Step(w, inputs, s[0], env));
    }
  }

  lemma {:induction false} WellFormedAppend(w: nat, s: seq<Inst>, t: seq<Inst>, defs: set<nat>, next: nat)
    requires w > 0
    ensures WellFormed(w, s + t, defs, next) <==> WellFormed(w, s, defs, next) && WellFormed(w, t, Defs(s, defs), next)
    decreases |s|
  {
    if s == [] {
      assert s + t == t;
    } else {
      assert (s + t)[0] == s[0] && (s + t)[1..] == s[1..] + t;
      WellFormedAppend(w, s[1..], t, if s[0].Observe? then defs else defs + {s[0].name}, next);
    }
  }

  lemma {:induction false} WellFormedSized(w: nat, insts: seq<Inst>, defs: set<nat>, next: nat)
    requires w > 0 && WellFormed(w, insts, defs, next)
    ensures forall k :: 0 <= k < |insts| ==> Sized(w, insts[k])
  {
    if insts != [] {
      WellFormedSized(w, insts[1..], if insts[0].Observe? then defs else defs + {insts[0].name}, next);
    }
  }

  lemma {:induction false} WellFormedDefs(w: nat, insts: seq<Inst>, defs: set<nat>, next: nat)
    requires w > 0 && WellFormed(w, insts, defs, next) && forall d :: d in defs ==> d < next
    ensures defs <= Defs(insts, defs) && forall d :: d in Defs(insts, defs) ==> d < next
    ensures forall k :: 0 <= k < |insts| ==> forall u :: u in Uses(insts[k]) ==> u in Defs(insts, defs)
  {
    if insts != [] {
      WellFormedDefs(w, insts[1..], if insts[0].Observe? then defs else defs + {insts[0].name}, next);
    }
  }

  /** The recursive functions on short lists, unfolded. */
  lemma UnfoldOne(w: nat, inputs: Inputs, a: Inst, env: Env, defs: set<nat>, next: nat)
    requires w > 0 && Sized(w, a) && !a.Observe?
    ensures EnvAfter(w, inputs, [a], env) == Step(w, inputs, a, env)
    ensures Defs([a], defs) == defs + {a.name}
    ensures WellFormed(w, [a], defs, next)
         == ((forall u :: u in Uses(a) ==> u in defs) && a.name !in defs && a.name < next)
  {
    assert [a][1..] == [];
  }

  lemma UnfoldCons(w: nat, inputs: Inputs, a: Inst, t: seq<Inst>, env: Env, defs: set<nat>, next: nat)
    requires w > 0 && Sized(w, a) && !a.Observe?
    requires forall k :: 0 <= k < |t| ==> Sized(w, t[k])
    ensures forall k :: 0 <= k < |[a] + t| ==> Sized(w, ([a] + t)[k])
    ensures EnvAfter(w, inputs, [a] + t, env) == EnvAfter(w, inputs, t, Step(w, inputs, a, env))
    ensures Defs([a] + t, defs) == Defs(t, defs + {a.name})
    ensures WellFormed(w, [a] + t, defs, next)
         == ((forall u :: u in Uses(a) ==> u in defs) && a.name !in defs && a.name < next
             && WellFormed(w, t, defs + {a.name}, next))
    ensures Cost([a] + t) == Cost([a]) + Cost(t)
  {
    assert ([a] + t)[1..] == t;
    CostOne(a);
  }

  // ----- Redirecting uses -----

  function Redirect(n: nat, a: nat, b: nat): nat {
    if n == a then b else n
  }

  function RedirectAll(args: seq<nat>, a: nat, b: nat): (r: seq<nat>)
    ensures |r| == |args| && forall k :: 0 <= k < |r| ==> r[k] == Redirect(args[k], a, b)
  {
    if args == [] then [] else [Redirect(args[0], a, b)] + RedirectAll(args[1..], a, b)
  }

  function RedirectInst(i: Inst, a: nat, b: nat): Inst {
    match i
    case Join(name, isAnd, x, y) => Join(name, isAnd, Redirect(x, a, b), Redirect(y, a, b))
    case Observe(args) => Observe(RedirectAll(args, a, b))
    case _ => i
  }

  /** `replaceAllUsesWith`, on the instructions behind the replaced one. */
  function ReplaceUses(insts: seq<Inst>, a: nat, b: nat): (r: seq<Inst>)
    ensures |r| == |insts| && forall k :: 0 <= k < |r| ==> r[k] == RedirectInst(insts[k], a, b)
  {
    if insts == [] then [] else [RedirectInst(insts[0], a, b)] + ReplaceUses(insts[1..], a, b)
  }

  lemma {:induction false} RedirectedObserve(args: seq<nat>, a: nat, b: nat, env1: Env, env2: Env, defs: set<nat>)
    requires forall u :: u in args ==> u in defs
    requires forall n :: n in defs ==> ValueOf(env1, n) == ValueOf(env2, Redirect(n, a, b))
    ensures ValuesOf(args, env1) == ValuesOf(RedirectAll(args, a, b), env2)
  {
  }

  lemma {:induction false} RedirectedCompute(w: nat, inputs: Inputs, i: Inst, a: nat, b: nat, env1: Env, env2: Env,
                                             defs: set<nat>)
    requires w > 0 && Sized(w, i) && !i.Observe? && forall u :: u in Uses(i) ==> u in defs
    requires forall n :: n in defs ==> ValueOf(env1, n) == ValueOf(env2, Redirect(n, a, b))
    ensures Sized(w, RedirectInst(i, a, b)) && !RedirectInst(i, a, b).Observe?
    ensures Compute(w, inputs, i, env1) == Compute(w, inputs, RedirectInst(i, a, b), env2)
  {
  }

  /** Redirected uses see the same values, whatever else has been defined. */
  lemma {:induction false} ReplaceUsesRuns(w: nat, inputs: Inputs, insts: seq<Inst>, a: nat, b: nat,
                                           env1: Env, env2: Env, defs: set<nat>, next: nat)
    requires w > 0 && WellFormed(w, insts, defs, next)
    requires a in defs && next <= b
    requires forall n :: n in defs ==> ValueOf(env1, n) == ValueOf(env2, Redirect(n, a, b))
    ensures forall k :: 0 <= k < |insts| ==> Sized(w, insts[k])
    ensures Observations(w, inputs, insts, env1) == Observations(w, inputs, ReplaceUses(insts, a, b), env2)
  {
    WellFormedSized(w, insts, defs, next);
    if insts != [] {
      var i := insts[0];
      var j := RedirectInst(i, a, b);
      if i.Observe? {
        RedirectedObserve(i.args, a, b, env1, env2, defs);
        ReplaceUsesRuns(w, inputs, insts[1..], a, b, env1, env2, defs, next);
      } else {
        RedirectedCompute(w, inputs, i, a, b, env1, env2, defs);
        ReplaceUsesRuns(w, inputs, insts[1..], a, b, Step(w, inputs, i, env1), Step(w, inputs, j, env2),
                        defs + {i.name}, next);
      }
    }
  }

  lemma {:induction false} ReplaceUsesWellFormed(w: nat, insts: seq<Inst>, a: nat, b: nat,
                                                 defs: set<nat>, defs2: set<nat>, next: nat, next2: nat)
    requires w > 0 && WellFormed(w, insts, defs, next)
    requires a in defs && next <= b < next2
    requires forall n :: n in defs ==> Redirect(n, a, b) in defs2
    requires forall n :: n in defs2 && n < next ==> n in defs
    ensures WellFormed(w, ReplaceUses(insts, a, b), defs2, next2)
  {
    if insts != [] {
      var i := insts[0];
      if i.Observe? {
        ReplaceUsesWellFormed(w, insts[1..], a, b, defs, defs2, next, next2);
      } else {
        ReplaceUsesWellFormed(w, insts[1..], a, b, defs + {i.name}, defs2 + {i.name}, next, next2);
      }
    }
  }

  // ----- One visit -----

  predicate Negative(w: nat, x: nat)
    requires w > 0
  {
    x >= Half(w)
  }

  datatype Change = Keep | Replace(before: seq<Inst>, behind: seq<Inst>, result: nat)

  /** What the loop inserts for an instruction: in front of it, where it is not
      visited, or behind it, where it is visited next. */
  function VisitOf(w: nat, i: Inst, next: nat): Change
    requires w > 0 && Sized(w, i)
  {
    if !i.Cmp? then Keep
    else if i.operand.Shifted? then
      var x, r := i.operand.of, i.operand.c;
      var main := Cmp(next, i.pred, x, NewRhs(w, i.operand.isAdd, r, i.rhs));
      if i.pred.Relational? then
        var wrap := Wrapping(w, i.pred.signed, i.pred.rel, i.operand.isAdd, r, i.rhs);
        Replace([], [main, Cmp(next + 1, wrap.pred, x, wrap.rhs), Join(next + 2, wrap.isAnd, next, next + 1)], next + 2)
      else Replace([], [main], next)
    else if Negative(w, i.rhs) then Replace([CmpMinus(next, i.pred, i.operand, Pow2(w) - i.rhs)], [], next)
    else if i.pred.Equal? && i.rhs == 0 then Replace([NotOf(next, i.operand)], [], next)
    else Keep
  }

  /** What the inserted instructions compute is stated on the values behind the
      operand, so that the lists need not be unfolded together with the arithmetic. */
  predicate Replaces(w: nat, inputs: Inputs, i: Inst, v: Change, next: nat, env: Env, defs: set<nat>)
    requires w > 0 && Sized(w, i) && !i.Observe?
  {
    && v.Replace?
    && (forall k :: 0 <= k < |v.before| ==> Sized(w, v.before[k]) && New(w, v.before[k]) && !v.before[k].Cmp?)
    && (forall k :: 0 <= k < |v.behind| ==> Sized(w, v.behind[k]) && New(w, v.behind[k]))
    && Cost(v.behind) < Cost([i])
    && (var out := EnvAfter(w, inputs, v.behind, Step(w, inputs, i, EnvAfter(w, inputs, v.before, env)));
        && ValueOf(out, v.result) == Compute(w, inputs, i, env)
        && forall n :: n in defs ==> ValueOf(out, n) == ValueOf(env, n))
    && Fits(w, i, v, next, defs)
  }

  predicate New(w: nat, i: Inst) {
    i.Cmp? || i.CmpMinus? || i.NotOf? || i.Join?
  }

  /** The inserted instructions respect SSA form. */
  predicate Fits(w: nat, i: Inst, v: Change, next: nat, defs: set<nat>)
    requires w > 0 && v.Replace? && !i.Observe?
  {
    var mid := v.before + ([i] + v.behind);
    var defs2 := Defs(mid, defs);
    && WellFormed(w, mid, defs, next + 3)
    && v.result in defs2 && next <= v.result < next + 3
    && (forall k, u :: 0 <= k < |mid| && u in Uses(mid[k]) ==> u >= next)
    && defs + {i.name} <= defs2
    && (forall n :: n in defs2 && n < next ==> n in defs + {i.name})
  }

  /** An inserted comparison in front of the old one. */
  lemma InFront(w: nat, inputs: Inputs, i: Inst, b: Inst, next: nat, env: Env, defs: set<nat>)
    requires w > 0 && Sized(w, i) && Sized(w, b) && i.Cmp? && (b.CmpMinus? || b.NotOf?) && b.name == next
    requires i.name < next && i.name !in defs && forall d :: d in defs ==> d < next
    requires Compute(w, inputs, b, env) == Compute(w, inputs, i, env)
    ensures Replaces(w, inputs, i, Replace([b], [], next), next, env, defs)
  {
    var env1 := Step(w, inputs, b, env);
    UnfoldOne(w, inputs, b, env, defs, next + 3);
    UnfoldOne(w, inputs, i, env1, defs + {next}, next + 3);
    UnfoldCons(w, inputs, b, [i], env, defs, next + 3);
    assert [b] + ([i] + []) == [b] + [i];
    CostOne(i);
  }

  lemma OneBehind(w: nat, inputs: Inputs, i: Inst, b: Inst, next: nat, env: Env, defs: set<nat>)
    requires w > 0 && Sized(w, i) && Sized(w, b) && i.Cmp? && b.Cmp? && b.name == next
    requires i.operand.Shifted? && b.operand == i.operand.of
    requires i.name < next && i.name !in defs && forall d :: d in defs ==> d < next
    requires Compute(w, inputs, b, env) == Compute(w, inputs, i, env)
    ensures Replaces(w, inputs, i, Replace([], [b], next), next, env, defs)
  {
    var env1 := Step(w, inputs, i, env);
    UnfoldOne(w, inputs, b, env1, defs + {i.name}, next + 3);
    UnfoldCons(w, inputs, i, [b], env, defs, next + 3);
    assert [] + ([i] + [b]) == [i] + [b];
    CostOne(i);
    CostOne(b);
  }

  lemma ThreeInOrder(w: nat, b: Inst, g: Inst, j: Inst, next: nat, defs: set<nat>)
    requires w > 0 && Sized(w, b) && Sized(w, g) && b.Cmp? && g.Cmp? && j.Join?
    requires b.name == next && g.name == next + 1 && j.name == next + 2 && j.a == next && j.b == next + 1
    requires forall d :: d in defs ==> d < next
    ensures WellFormed(w, [b] + ([g] + [j]), defs, next + 3)
    ensures Defs([b] + ([g] + [j]), defs) == defs + {next} + {next + 1} + {next + 2}
  {
    var inputs: Inputs := n => 0;
    UnfoldOne(w, inputs, j, map[], defs + {next} + {next + 1}, next + 3);
    UnfoldCons(w, inputs, g, [j], map[], defs + {next}, next + 3);
    UnfoldCons(w, inputs, b, [g] + [j], map[], defs, next + 3);
  }

  lemma ThreeBehindFits(w: nat, i: Inst, b: Inst, g: Inst, j: Inst, next: nat, defs: set<nat>)
    requires w > 0 && Sized(w, i) && Sized(w, b) && Sized(w, g) && i.Cmp? && b.Cmp? && g.Cmp? && j.Join?
    requires b.name == next && g.name == next + 1 && j.name == next + 2 && j.a == next && j.b == next + 1
    requires i.name < next && i.name !in defs && forall d :: d in defs ==> d < next
    ensures Fits(w, i, Replace([], [b, g, j], next + 2), next, defs)
  {
    var inputs: Inputs := n => 0;
    var t := [b] + ([g] + [j]);
    ThreeInOrder(w, b, g, j, next, defs + {i.name});
    UnfoldCons(w, inputs, i, t, map[], defs, next + 3);
    assert [] + ([i] + [b, g, j]) == [i] + t;
    forall k, u | 0 <= k < 4 && u in Uses(([i] + t)[k]) ensures u >= next {
      assert ([i] + t)[k] == if k == 0 then i else if k == 1 then b else if k == 2 then g else j;
    }
  }

  lemma ThreeBehindRun(w: nat, inputs: Inputs, b: Inst, g: Inst, j: Inst, env: Env)
    requires w > 0 && Sized(w, b) && Sized(w, g) && b.Cmp? && g.Cmp? && j.Join?
    requires j.a == b.name && j.b == g.name && b.name != g.name && j.name != b.name && j.name != g.name
    ensures EnvAfter(w, inputs, [b, g, j], env)
         == env[b.name := Compute(w, inputs, b, env)][g.name := Compute(w, inputs, g, env)]
               [j.name := if j.isAnd then Compute(w, inputs, b, env) && Compute(w, inputs, g, env)
                          else Compute(w, inputs, b, env) || Compute(w, inputs, g, env)]
    ensures Cost([b, g, j]) == NestCost(b.operand) + NestCost(g.operand) + 1
  {
    UnfoldOne(w, inputs, j, Step(w, inputs, g, Step(w, inputs, b, env)), {}, 0);
    UnfoldCons(w, inputs, g, [j], Step(w, inputs, b, env), {}, 0);
    UnfoldCons(w, inputs, b, [g] + [j], env, {}, 0);
    assert [b, g, j] == [b] + ([g] + [j]);
    CostOne(b);
    CostOne(g);
    CostOne(j);
  }

  lemma ThreeBehind(w: nat, inputs: Inputs, i: Inst, b: Inst, g: Inst, j: Inst, next: nat, env: Env, defs: set<nat>)
    requires w > 0 && Sized(w, i) && Sized(w, b) && Sized(w, g) && i.Cmp? && b.Cmp? && g.Cmp? && j.Join?
    requires i.operand.Shifted? && b.operand == i.operand.of && g.operand == i.operand.of
    requires b.name == next && g.name == next + 1 && j.name == next + 2 && j.a == next && j.b == next + 1
    requires i.name < next && i.name !in defs && forall d :: d in defs ==> d < next
    requires var x, y := Compute(w, inputs, b, env), Compute(w, inputs, g, env);
             Compute(w, inputs, i, env) == if j.isAnd then x && y else x || y
    ensures Replaces(w, inputs, i, Replace([], [b, g, j], next + 2), next, env, defs)
  {
    ThreeBehindFits(w, i, b, g, j, next, defs);
    ThreeBehindRun(w, inputs, b, g, j, Step(w, inputs, i, env));
    CostOne(i);
  }

  /** The inserted instructions compute the value that they replace. */
  lemma VisitReplaces(w: nat, inputs: Inputs, i: Inst, next: nat, env: Env, defs: set<nat>)
    requires w > 0 && Sized(w, i) && VisitOf(w, i, next).Replace?
    requires i.name < next && i.name !in defs && forall d :: d in defs ==> d < next
    ensures Replaces(w, inputs, i, VisitOf(w, i, next), next, env, defs)
  {
    if !i.operand.Shifted? {
      var v := VisitOf(w, i, next);
      InFront(w, inputs, i, v.before[0], next, env, defs);
    } else {
      RewriteCorrectIff(w, i.pred, i.operand.isAdd, i.operand.c, i.rhs);
      var b := Cmp(next, i.pred, i.operand.of, NewRhs(w, i.operand.isAdd, i.operand.c, i.rhs));
      if i.pred.Relational? {
        var wrap := Wrapping(w, i.pred.signed, i.pred.rel, i.operand.isAdd, i.operand.c, i.rhs);
        ThreeBehind(w, inputs, i, b, Cmp(next + 1, wrap.pred, i.operand.of, wrap.rhs),
                    Join(next + 2, wrap.isAnd, next, next + 1), next, env, defs);
      } else {
        OneBehind(w, inputs, i, b, next, env, defs);
      }
    }
  }

  // ----- Termination -----

  function NestCost(n: Nest): (c: nat)
    ensures c >= 1
  {
    match n
    case Base(_) => 1
    case Shifted(_, _, of) => 2 * NestCost(of) + 2
  }

  function Cost(insts: seq<Inst>): nat {
    if insts == [] then 0 else (if insts[0].Cmp? then NestCost(insts[0].operand) else 1) + Cost(insts[1..])
  }

  lemma {:induction false} CostAppend(s: seq<Inst>, t: seq<Inst>)
    ensures Cost(s + t) == Cost(s) + Cost(t)
    decreases |s|
  {
    if s == [] {
      assert s + t == t;
    } else {
      assert (s + t)[0] == s[0] && (s + t)[1..] == s[1..] + t;
      CostAppend(s[1..], t);
    }
  }

  lemma {:induction false} ReplaceUsesCost(insts: seq<Inst>, a: nat, b: nat)
    ensures Cost(ReplaceUses(insts, a, b)) == Cost(insts)
  {
    if insts != [] { ReplaceUsesCost(insts[1..], a, b); }
  }

  lemma CostOne(i: Inst)
    ensures Cost([i]) == if i.Cmp? then NestCost(i.operand) else 1
  {
    assert [i][1..] == [];
  }

  // ----- The loop -----

  /** No comparison over a constant addition or subtraction, none against a negative
      constant, and none that only tests for zero. */
  predicate Normalized(w: nat, i: Inst)
    requires w > 0
  {
    i.Cmp? ==> i.operand.Base? && !Negative(w, i.rhs) && !(i.pred.Equal? && i.rhs == 0)
  }

  predicate Unused(insts: seq<Inst>, dead: set<nat>) {
    forall k, u :: 0 <= k < |insts| && u in Uses(insts[k]) ==> u !in dead
  }

  function Erase(insts: seq<Inst>, dead: set<nat>): seq<Inst> {
    if insts == [] then []
    else if !insts[0].Observe? && insts[0].name in dead then Erase(insts[1..], dead)
    else [insts[0]] + Erase(insts[1..], dead)
  }

  /** Erasing unused instructions changes no observation. */
  lemma {:induction false} EraseRuns(w: nat, inputs: Inputs, insts: seq<Inst>, dead: set<nat>, env1: Env, env2: Env)
    requires w > 0 && Unused(insts, dead)
    requires forall k :: 0 <= k < |insts| ==> Sized(w, insts[k])
    requires forall n :: n !in dead ==> ValueOf(env1, n) == ValueOf(env2, n)
    ensures forall k :: 0 <= k < |Erase(insts, dead)| ==> Sized(w, Erase(insts, dead)[k])
    ensures Observations(w, inputs, insts, env1) == Observations(w, inputs, Erase(insts, dead), env2)
  {
    if insts != [] {
      var i := insts[0];
      assert forall u :: u in Uses(i) ==> u !in dead;
      if i.Observe? {
        assert ValuesOf(i.args, env1) == ValuesOf(i.args, env2);
        EraseRuns(w, inputs, insts[1..], dead, env1, env2);
      } else if i.name in dead {
        EraseRuns(w, inputs, insts[1..], dead, Step(w, inputs, i, env1), env2);
      } else {
        assert Compute(w, inputs, i, env1) == Compute(w, inputs, i, env2) by {
          if i.Join? { assert i.a in Uses(i) && i.b in Uses(i); }
        }
        EraseRuns(w, inputs, insts[1..], dead, Step(w, inputs, i, env1), Step(w, inputs, i, env2));
        assert ([i] + Erase(insts[1..], dead))[1..] == Erase(insts[1..], dead);
      }
    }
  }

  lemma {:induction false} EraseSized(w: nat, insts: seq<Inst>, dead: set<nat>)
    requires w > 0 && forall k :: 0 <= k < |insts| ==> Sized(w, insts[k])
    ensures forall k :: 0 <= k < |Erase(insts, dead)| ==> Sized(w, Erase(insts, dead)[k])
  {
    if insts != [] { EraseSized(w, insts[1..], dead); }
  }

  lemma {:induction false} EraseKeeps(w: nat, insts: seq<Inst>, dead: set<nat>)
    requires w > 0
    requires forall k :: 0 <= k < |insts| ==> Normalized(w, insts[k]) || (!insts[k].Observe? && insts[k].name in dead)
    ensures forall k :: 0 <= k < |Erase(insts, dead)| ==> Normalized(w, Erase(insts, dead)[k])
  {
    if insts != [] { EraseKeeps(w, insts[1..], dead); }
  }

  /** The block after a visit of position `i` that replaces its instruction. */
  function Visited(insts: seq<Inst>, i: nat, v: Change): seq<Inst>
    requires i < |insts| && !insts[i].Observe? && v.Replace?
  {
    insts[..i] + ((v.before + ([insts[i]] + v.behind)) + ReplaceUses(insts[i + 1..], insts[i].name, v.result))
  }

  /** What is known around position `i` of a block in SSA form. */
  lemma Around(w: nat, insts: seq<Inst>, i: nat, next: nat)
    requires w > 0 && i < |insts| && WellFormed(w, insts, {}, next) && !insts[i].Observe?
    ensures var p, it, s := insts[..i], insts[i], insts[i + 1..];
            var defs := Defs(p, {});
            && insts == p + ([it] + s)
            && WellFormed(w, p, {}, next)
            && it.name !in defs && it.name < next
            && (forall d :: d in defs ==> d < next)
            && (forall k, u :: 0 <= k < i && u in Uses(p[k]) ==> u in defs)
            && WellFormed(w, s, defs + {it.name}, next)
  {
    var p, it, s := insts[..i], insts[i], insts[i + 1..];
    assert insts == p + ([it] + s);
    WellFormedAppend(w, p, [it] + s, {}, next);
    WellFormedDefs(w, p, {}, next);
    assert ([it] + s)[0] == it && ([it] + s)[1..] == s;
  }

  lemma KeepsSSA(w: nat, insts: seq<Inst>, i: nat, v: Change, next: nat)
    requires w > 0 && i < |insts| && WellFormed(w, insts, {}, next) && !insts[i].Observe?
    requires v.Replace? && Fits(w, insts[i], v, next, Defs(insts[..i], {}))
    ensures WellFormed(w, Visited(insts, i, v), {}, next + 3)
    ensures forall k :: 0 <= k < |Visited(insts, i, v)| ==> Sized(w, Visited(insts, i, v)[k])
  {
    Around(w, insts, i, next);
    var p, it, s := insts[..i], insts[i], insts[i + 1..];
    var defs := Defs(p, {});
    var mid := v.before + ([it] + v.behind);
    var s2 := ReplaceUses(s, it.name, v.result);
    ReplaceUsesWellFormed(w, s, it.name, v.result, defs + {it.name}, Defs(mid, defs), next, next + 3);
    WellFormedLater(w, p, {}, next, next + 3);
    WellFormedAppend(w, mid, s2, defs, next + 3);
    WellFormedAppend(w, p, mid + s2, {}, next + 3);
    WellFormedSized(w, Visited(insts, i, v), {}, next + 3);
  }

  /** A block whose middle is replaced runs alike when the tail does. */
  lemma SameTail(w: nat, inputs: Inputs, p: seq<Inst>, m1: seq<Inst>, m2: seq<Inst>)
    requires w > 0 && forall k :: 0 <= k < |p| ==> Sized(w, p[k])
    requires forall k :: 0 <= k < |m1| ==> Sized(w, m1[k])
    requires forall k :: 0 <= k < |m2| ==> Sized(w, m2[k])
    requires var env := EnvAfter(w, inputs, p, map[]);
             Observations(w, inputs, m1, env) == Observations(w, inputs, m2, env)
    ensures forall k :: 0 <= k < |p + m1| ==> Sized(w, (p + m1)[k])
    ensures forall k :: 0 <= k < |p + m2| ==> Sized(w, (p + m2)[k])
    ensures Observations(w, inputs, p + m1, map[]) == Observations(w, inputs, p + m2, map[])
  {
    ObservationsAppend(w, inputs, p, m1, map[]);
    ObservationsAppend(w, inputs, p, m2, map[]);
  }

  lemma {:induction false} RedirectedSized(w: nat, s: seq<Inst>, a: nat, b: nat)
    requires w > 0 && forall k :: 0 <= k < |s| ==> Sized(w, s[k])
    ensures forall k :: 0 <= k < |s| ==> Sized(w, ReplaceUses(s, a, b)[k])
  {
  }

  lemma {:induction false} MiddleObservations(w: nat, inputs: Inputs, it: Inst, s: seq<Inst>, v: Change, next: nat,
                                              env: Env, defs: set<nat>)
    requires w > 0 && Sized(w, it) && !it.Observe? && Replaces(w, inputs, it, v, next, env, defs)
    requires WellFormed(w, s, defs + {it.name}, next) && it.name !in defs
    ensures forall k :: 0 <= k < |s| ==> Sized(w, s[k])
    ensures var m := (v.before + ([it] + v.behind)) + ReplaceUses(s, it.name, v.result);
            && (forall k :: 0 <= k < |m| ==> Sized(w, m[k]))
            && Observations(w, inputs, m, env) == Observations(w, inputs, [it] + s, env)
  {
    var s2 := ReplaceUses(s, it.name, v.result);
    WellFormedSized(w, s, defs + {it.name}, next);
    RedirectedSized(w, s, it.name, v.result);
    MidRuns(w, inputs, v.before, it, v.behind, s2, env);
    assert ([it] + s)[1..] == s;
    RestObservations(w, inputs, it, s, v, next, env, defs);
  }

  lemma {:induction false} RestObservations(w: nat, inputs: Inputs, it: Inst, s: seq<Inst>, v: Change, next: nat,
                                            env: Env, defs: set<nat>)
    requires w > 0 && Sized(w, it) && !it.Observe? && Replaces(w, inputs, it, v, next, env, defs)
    requires WellFormed(w, s, defs + {it.name}, next) && it.name !in defs
    ensures forall k :: 0 <= k < |s| ==> Sized(w, s[k])
    ensures var out := EnvAfter(w, inputs, v.behind, Step(w, inputs, it, EnvAfter(w, inputs, v.before, env)));
            var s2 := ReplaceUses(s, it.name, v.result);
            && (forall k :: 0 <= k < |s2| ==> Sized(w, s2[k]))
            && Observations(w, inputs, s2, out) == Observations(w, inputs, s, Step(w, inputs, it, env))
  {
    var out := EnvAfter(w, inputs, v.behind, Step(w, inputs, it, EnvAfter(w, inputs, v.before, env)));
    WellFormedSized(w, s, defs + {it.name}, next);
    RedirectedSized(w, s, it.name, v.result);
    ReplaceUsesRuns(w, inputs, s, it.name, v.result, Step(w, inputs, it, env), out, defs + {it.name}, next);
  }

  lemma KeepsObservations(w: nat, inputs: Inputs, insts: seq<Inst>, i: nat, v: Change, next: nat)
    requires w > 0 && i < |insts| && WellFormed(w, insts, {}, next) && !insts[i].Observe?
    requires forall k :: 0 <= k < |insts| ==> Sized(w, insts[k])
    requires Replaces(w, inputs, insts[i], v, next, EnvAfter(w, inputs, insts[..i], map[]), Defs(insts[..i], {}))
    ensures forall k :: 0 <= k < |Visited(insts, i, v)| ==> Sized(w, Visited(insts, i, v)[k])
    ensures Observations(w, inputs, Visited(insts, i, v), map[]) == Observations(w, inputs, insts, map[])
  {
    Around(w, insts, i, next);
    var p, it, s := insts[..i], insts[i], insts[i + 1..];
    MiddleObservations(w, inputs, it, s, v, next, EnvAfter(w, inputs, p, map[]), Defs(p, {}));
    SameTail(w, inputs, p, (v.before + ([it] + v.behind)) + ReplaceUses(s, it.name, v.result), [it] + s);
  }

  lemma LeavesUnused(w: nat, insts: seq<Inst>, i: nat, v: Change, next: nat, dead: set<nat>)
    requires w > 0 && i < |insts| && WellFormed(w, insts, {}, next) && !insts[i].Observe?
    requires v.Replace? && Fits(w, insts[i], v, next, Defs(insts[..i], {}))
    requires Unused(insts, dead) && forall d :: d in dead ==> d < next
    ensures Unused(Visited(insts, i, v), dead + {insts[i].name})
  {
    Around(w, insts, i, next);
    var p, s, name := insts[..i], insts[i + 1..], insts[i].name;
    var mid := v.before + ([insts[i]] + v.behind);
    var dead2 := dead + {name};
    forall k, u | 0 <= k < |p| && u in Uses(p[k]) ensures u !in dead2 { assert p[k] == insts[k]; }
    UnusedBehind(s, name, v.result, dead);
    UnusedAppend(mid, ReplaceUses(s, name, v.result), dead2);
    UnusedAppend(p, mid + ReplaceUses(s, name, v.result), dead2);
  }

  lemma {:induction false} UnusedAppend(s: seq<Inst>, t: seq<Inst>, dead: set<nat>)
    requires Unused(s, dead) && Unused(t, dead)
    ensures Unused(s + t, dead)
  {
    forall k, u | 0 <= k < |s + t| && u in Uses((s + t)[k]) ensures u !in dead {
      assert (s + t)[k] == if k < |s| then s[k] else t[k - |s|];
    }
  }

  lemma {:induction false} UnusedBehind(s: seq<Inst>, a: nat, b: nat, dead: set<nat>)
    requires Unused(s, dead) && b !in dead && b != a
    ensures Unused(ReplaceUses(s, a, b), dead + {a})
  {
    forall k, u | 0 <= k < |s| && u in Uses(ReplaceUses(s, a, b)[k]) ensures u !in dead + {a} {
      RedirectedUses(s[k], a, b, u);
      assert u != b ==> u in Uses(s[k]);
    }
  }

  lemma {:induction false} WellFormedLater(w: nat, insts: seq<Inst>, defs: set<nat>, next: nat, next2: nat)
    requires w > 0 && WellFormed(w, insts, defs, next) && next <= next2
    ensures WellFormed(w, insts, defs, next2)
  {
    if insts != [] {
      WellFormedLater(w, insts[1..], if insts[0].Observe? then defs else defs + {insts[0].name}, next, next2);
    }
  }

  lemma MidRuns(w: nat, inputs: Inputs, before: seq<Inst>, it: Inst, behind: seq<Inst>, s: seq<Inst>, env: Env)
    requires w > 0 && Sized(w, it) && !it.Observe?
    requires forall k :: 0 <= k < |before| ==> Sized(w, before[k]) && !before[k].Observe?
    requires forall k :: 0 <= k < |behind| ==> Sized(w, behind[k]) && !behind[k].Observe?
    requires forall k :: 0 <= k < |s| ==> Sized(w, s[k])
    ensures var all := (before + ([it] + behind)) + s;
            && (forall k :: 0 <= k < |all| ==> Sized(w, all[k]))
            && Observations(w, inputs, all, env)
            == Observations(w, inputs, s,
                            EnvAfter(w, inputs, behind, Step(w, inputs, it, EnvAfter(w, inputs, before, env))))
  {
    var env1 := Step(w, inputs, it, EnvAfter(w, inputs, before, env));
    assert (before + ([it] + behind)) + s == before + ([it] + (behind + s));
    ObservationsAppend(w, inputs, before, [it] + (behind + s), env);
    ObservationsAppend(w, inputs, behind, s, env1);
    assert ([it] + (behind + s))[1..] == behind + s;
    SilentInsts(w, inputs, before, env);
    SilentInsts(w, inputs, behind, env1);
  }

  lemma {:induction false} SilentInsts(w: nat, inputs: Inputs, insts: seq<Inst>, env: Env)
    requires w > 0 && forall k :: 0 <= k < |insts| ==> Sized(w, insts[k]) && !insts[k].Observe?
    ensures Observations(w, inputs, insts, env) == []
  {
    if insts != [] { SilentInsts(w, inputs, insts[1..], Step(w, inputs, insts[0], env)); }
  }

  lemma RedirectedUses(i: Inst, a: nat, b: nat, u: nat)
    requires u in Uses(RedirectInst(i, a, b))
    ensures u == b || (u in Uses(i) && u != a)
  {
    if i.Observe? {
      var k :| 0 <= k < |i.args| && RedirectAll(i.args, a, b)[k] == u;
      assert i.args[k] in Uses(i);
    }
  }

  lemma MakesProgress(insts: seq<Inst>, i: nat, v: Change)
    requires i < |insts| && !insts[i].Observe? && v.Replace? && Cost(v.behind) < Cost([insts[i]])
    requires forall k :: 0 <= k < |v.before| ==> !v.before[k].Cmp?
    ensures var visited := Visited(insts, i, v);
            var j := i + |v.before| + 1;
            && j <= |visited|
            && Cost(visited[j..]) < Cost(insts[i..])
            && (forall k :: 0 <= k < i ==> visited[k] == insts[k])
            && (forall k :: i <= k < j - 1 ==> !visited[k].Cmp?)
            && visited[j - 1] == insts[i]
  {
    var rest := ReplaceUses(insts[i + 1..], insts[i].name, v.result);
    VisitedParts(insts[..i], v.before, insts[i], v.behind, rest);
    CostAppend(v.behind, rest);
    CostAppend([insts[i]], insts[i + 1..]);
    ReplaceUsesCost(insts[i + 1..], insts[i].name, v.result);
    assert insts[i..] == [insts[i]] + insts[i + 1..];
    forall k | 0 <= k < i ensures Visited(insts, i, v)[k] == insts[k] {
      assert Visited(insts, i, v)[k] == insts[..i][k];
    }
  }

  lemma {:induction false} VisitedParts(p: seq<Inst>, before: seq<Inst>, it: Inst, behind: seq<Inst>, rest: seq<Inst>)
    ensures var all, j := p + ((before + ([it] + behind)) + rest), |p| + |before| + 1;
            && j <= |all| && all[j..] == behind + rest && all[j - 1] == it
            && (forall k :: 0 <= k < |p| ==> all[k] == p[k])
            && (forall k :: |p| <= k < j - 1 ==> all[k] == before[k - |p|])
  {
  }

  /** What the loop keeps. */
  predicate Kept(w: nat, insts: seq<Inst>, i: nat, next: nat, dead: set<nat>)
    requires w > 0
  {
    && i <= |insts|
    && WellFormed(w, insts, {}, next)
    && (forall k :: 0 <= k < |insts| ==> Sized(w, insts[k]))
    && Unused(insts, dead) && (forall d :: d in dead ==> d < next)
    && (forall k :: 0 <= k < i ==> Normalized(w, insts[k]) || (!insts[k].Observe? && insts[k].name in dead))
  }

  lemma VisitKeeps(w: nat, inputs: Inputs, insts: seq<Inst>, i: nat, v: Change, next: nat, dead: set<nat>)
    requires w > 0 && Kept(w, insts, i, next, dead) && i < |insts| && !insts[i].Observe?
    requires Replaces(w, inputs, insts[i], v, next, EnvAfter(w, inputs, insts[..i], map[]), Defs(insts[..i], {}))
    ensures Kept(w, Visited(insts, i, v), i + |v.before| + 1, next + 3, dead + {insts[i].name})
  {
    Around(w, insts, i, next);
    KeepsSSA(w, insts, i, v, next);
    LeavesUnused(w, insts, i, v, next, dead);
    MakesProgress(insts, i, v);
  }

  /** One turn of the loop. */
  method VisitOne(w: nat, insts: seq<Inst>, i: nat, next: nat, dead: set<nat>)
    returns (insts2: seq<Inst>, i2: nat, next2: nat, dead2: set<nat>)
    requires w > 0 && Kept(w, insts, i, next, dead) && i < |insts|
    ensures Kept(w, insts2, i2, next2, dead2)
    ensures forall inputs: Inputs :: Observations(w, inputs, insts2, map[]) == Observations(w, inputs, insts, map[])
    ensures Cost(insts2[i2..]) < Cost(insts[i..])
  {
    var v := VisitOf(w, insts[i], next);
    if v.Replace? {
      ReplacesAt(w, n => 0, insts, i, v, next);
      VisitKeeps(w, n => 0, insts, i, v, next, dead);
      forall inputs: Inputs
        ensures Observations(w, inputs, Visited(insts, i, v), map[]) == Observations(w, inputs, insts, map[])
      {
        ReplacesAt(w, inputs, insts, i, v, next);
        KeepsObservations(w, inputs, insts, i, v, next);
      }
      MakesProgress(insts, i, v);
      dead2 := dead + {insts[i].name};
      insts2 := Visited(insts, i, v);
      i2 := i + |v.before| + 1;
      next2 := next + 3;
    } else {
      assert insts[i..][1..] == insts[i + 1..];
      insts2, i2, next2, dead2 := insts, i + 1, next, dead;
    }
  }

  lemma ReplacesAt(w: nat, inputs: Inputs, insts: seq<Inst>, i: nat, v: Change, next: nat)
    requires w > 0 && i < |insts| && WellFormed(w, insts, {}, next)
    requires forall k :: 0 <= k < |insts| ==> Sized(w, insts[k])
    requires v == VisitOf(w, insts[i], next) && v.Replace?
    ensures !insts[i].Observe?
    ensures Replaces(w, inputs, insts[i], v, next, EnvAfter(w, inputs, insts[..i], map[]), Defs(insts[..i], {}))
  {
    Around(w, insts, i, next);
    VisitReplaces(w, inputs, insts[i], next, EnvAfter(w, inputs, insts[..i], map[]), Defs(insts[..i], {}));
  }

  /** The pass terminates on nests of any depth; the observations of the block are
      those of the original, and no comparison over a constant addition or
      subtraction is left. */
  method NormalizeComparisons(w: nat, block: seq<Inst>, unusedNames: nat) returns (result: seq<Inst>)
    requires w > 0 && WellFormed(w, block, {}, unusedNames)
    ensures forall k :: 0 <= k < |block| ==> Sized(w, block[k])
    ensures forall k :: 0 <= k < |result| ==> Sized(w, result[k]) && Normalized(w, result[k])
    ensures forall inputs: Inputs :: Observations(w, inputs, result, map[]) == Observations(w, inputs, block, map[])
  {
    WellFormedSized(w, block, {}, unusedNames);
    var insts, next := block, unusedNames;
    var dead: set<nat> := {};
    var i: nat := 0;
    while i < |insts|
      invariant Kept(w, insts, i, next, dead)
      invariant forall inputs: Inputs :: Observations(w, inputs, insts, map[]) == Observations(w, inputs, block, map[])
      decreases Cost(insts[i..])
    {
      insts, i, next, dead := VisitOne(w, insts, i, next, dead);
    }
    EraseSized(w, insts, dead);
    forall inputs: Inputs
      ensures Observations(w, inputs, Erase(insts, dead), map[]) == Observations(w, inputs, block, map[])
    {
      EraseRuns(w, inputs, insts, dead, map[], map[]);
    }
    EraseKeeps(w, insts, dead);
    result := Erase(insts, dead);
  }
}

/** The fragment of C that the decompiler prints, with its own semantics: a
    `break` leaves the nearest enclosing `switch` or loop, a `continue` jumps to
    the test of the nearest loop, control falls from one group of a `switch` into
    the next, and a compound statement ends the scope of what it declares
    (sections 6.8.6.3, 6.8.6.2, 6.8.4.2 and 6.2.1 of ISO/IEC 9899:2011). */
module CLang {
  import opened Ghast

  datatype CExpr = OfGhast(e: Expr) | TrueLiteral | StateVar(v: nat)

  datatype ElseBranch = NoElse | Else(s: CStmt)

  /** One or more labels with the statements up to the next label. */
  datatype Group = Group(labels: seq<nat>, isDefault: bool, stmts: seq<CStmt>)

  datatype CStmt =
    | CRun(bb: Block, end: BlockEnd)    // the statements of a basic block
    | CSetState(value: nat)
    | CDeclare(name: nat)               // a local variable
    | CDeclareFalse(v: nat)             // bool v = false;
    | CAssignTrue(v: nat)
    | CIf(cond: CExpr, thn: CStmt, els: ElseBranch)
    | CWhile(cond: CExpr, body: CStmt)
    | CDoWhile(body: CStmt, cond: CExpr)
    | CSwitch(on: Scrutinee, groups: seq<Group>)
    | CBreak
    | CContinue
    | CCompound(stmts: seq<CStmt>)

  /** The switch state variables in scope, with their values. */
  type Env = map<nat, bool>

  datatype CState = CState(h: History, env: Env)

  datatype COutcome = CFell | CBroke | CContinued | CReturned(block: nat) | CHalted | COutOfFuel

  datatype CRes = CRes(out: COutcome, st: CState)

  function CTest(w: World, e: CExpr, st: CState): bool {
    match e
    case OfGhast(g) => Test(w, g, st.h)
    case TrueLiteral => true
    case StateVar(v) => v in st.env && st.env[v]
  }

  /** Leaving a compound statement forgets the variables it declared. */
  function LeaveScope(outer: Env, r: CRes): CRes {
    CRes(r.out, CState(r.st.h, map x | x in outer && x in r.st.env :: r.st.env[x]))
  }

  function SelectGroup(groups: seq<Group>, v: nat): (k: nat)
    ensures k <= |groups|
  {
    var k := LabelledGroup(groups, v);
    if k < |groups| then k else DefaultGroup(groups)
  }

  function LabelledGroup(groups: seq<Group>, v: nat): (k: nat)
    ensures k <= |groups|
  {
    if groups == [] then 0 else if v in groups[0].labels then 0 else 1 + LabelledGroup(groups[1..], v)
  }

  function DefaultGroup(groups: seq<Group>): (k: nat)
    ensures k <= |groups|
  {
    if groups == [] then 0 else if groups[0].isDefault then 0 else 1 + DefaultGroup(groups[1..])
  }

  function ExecC(w: World, fuel: nat, s: CStmt, st: CState): CRes
    decreases fuel, s, 0
  {
    match s
    case CRun(bb, end) =>
      var st1 := CState(RunBlock(bb, st.h), st.env);
      (match end
       case Jumps => CRes(CFell, st1)
       case Returns => CRes(CReturned(bb.id), st1)
       case CallsNoReturn => CRes(CHalted, st1))
    case CSetState(value) => CRes(CFell, CState(st.h + [SetState(value)], st.env))
    case CDeclare(_) => CRes(CFell, st)
    case CDeclareFalse(v) => CRes(CFell, CState(st.h, st.env[v := false]))
    case CAssignTrue(v) => CRes(CFell, CState(st.h, st.env[v := true]))
    case CIf(cond, thn, els) =>
      if CTest(w, cond, st) then ExecC(w, fuel, thn, st)
      else if els.Else? then ExecC(w, fuel, els.s, st)
      else CRes(CFell, st)
    case CWhile(cond, body) => CLoop(w, fuel, true, cond, body, st)
    case CDoWhile(body, cond) => CLoop(w, fuel, false, cond, body, st)
    case CSwitch(on, groups) =>
      var k := SelectGroup(groups, ScrutineeValue(w, on, st.h));
      var r := ExecGroups(w, fuel, groups[k..], st);
      LeaveScope(st.env, if r.out.CBroke? then CRes(CFell, r.st) else r)
    case CBreak => CRes(CBroke, st)
    case CContinue => CRes(CContinued, st)
    case CCompound(stmts) => LeaveScope(st.env, ExecCs(w, fuel, stmts, st))
  }

  function ExecCs(w: World, fuel: nat, stmts: seq<CStmt>, st: CState): CRes
    decreases fuel, stmts, 0
  {
    if stmts == [] then CRes(CFell, st)
    else
      var r := ExecC(w, fuel, stmts[0], st);
      if r.out.CFell? then ExecCs(w, fuel, stmts[1..], r.st) else r
  }

  function ExecGroups(w: World, fuel: nat, groups: seq<Group>, st: CState): CRes
    decreases fuel, groups, 0
  {
    if groups == [] then CRes(CFell, st)
    else
      var r := ExecCs(w, fuel, groups[0].stmts, st);
      if r.out.CFell? then ExecGroups(w, fuel, groups[1..], r.st) else r
  }

  datatype CStep = CAgain(st: CState) | CStop(res: CRes)

  function AfterCBody(w: World, testFirst: bool, cond: CExpr, r: CRes): CStep {
    match r.out
    case CFell => if testFirst || CTest(w, cond, r.st) then CAgain(r.st) else CStop(r)
    case CContinued => if testFirst || CTest(w, cond, r.st) then CAgain(r.st) else CStop(CRes(CFell, r.st))
    case CBroke => CStop(CRes(CFell, r.st))
    case _ => CStop(r)
  }

  function CLoop(w: World, fuel: nat, testFirst: bool, cond: CExpr, body: CStmt, st: CState): CRes
    decreases fuel, body, 1
  {
    if fuel == 0 then CRes(COutOfFuel, st)
    else if testFirst && !CTest(w, cond, st) then CRes(CFell, st)
    else
      match AfterCBody(w, testFirst, cond, ExecC(w, fuel - 1, body, st))
      case CAgain(st1) => CLoop(w, fuel - 1, testFirst, cond, body, st1)
      case CStop(res) => res
  }

  lemma {:induction false} ExecCsAppend(w: World, fuel: nat, s: seq<CStmt>, t: seq<CStmt>, st: CState)
    ensures ExecCs(w, fuel, s + t, st)
         == var r := ExecCs(w, fuel, s, st);
            if r.out.CFell? then ExecCs(w, fuel, t, r.st) else r
    decreases |s|
  {
    if s == [] {
      assert s + t == t;
    } else {
      assert (s + t)[0] == s[0] && (s + t)[1..] == s[1..] + t;
      ExecCsAppend(w, fuel, s[1..], t, ExecC(w, fuel, s[0], st).st);
    }
  }
}

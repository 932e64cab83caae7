/** The printed C as a sequence of tokens, and its grammar. */
module CTokens {
  import opened Ghast
  import opened CLang

  /** Basic blocks, declarations and assignments stand for the statements that they
      print, with their semicolons. */
  datatype Token =
    | TRun(bb: Block, end: BlockEnd)
    | TSetState(value: nat)
    | TDeclare(name: nat)
    | TDeclareFalse(v: nat)
    | TAssignTrue(v: nat)
    | TBreak
    | TContinue
    | TIf(cond: CExpr)
    | TElse
    | TWhile(cond: CExpr)
    | TDo
    | TWhileEnd(cond: CExpr)
    | TSwitch(on: Scrutinee)
    | TCase(value: nat)
    | TDefault
    | TOpen
    | TClose

  // ----- Printing -----

  function Tokens(s: CStmt): (r: seq<Token>)
    ensures r != []
  {
    match s
    case CRun(bb, end) => [TRun(bb, end)]
    case CSetState(value) => [TSetState(value)]
    case CDeclare(name) => [TDeclare(name)]
    case CDeclareFalse(v) => [TDeclareFalse(v)]
    case CAssignTrue(v) => [TAssignTrue(v)]
    case CBreak => [TBreak]
    case CContinue => [TContinue]
    case CIf(cond, thn, els) =>
      [TIf(cond)] + Tokens(thn) + if els.Else? then [TElse] + Tokens(els.s) else []
    case CWhile(cond, body) => [TWhile(cond)] + Tokens(body)
    case CDoWhile(body, cond) => [TDo] + Tokens(body) + [TWhileEnd(cond)]
    case CSwitch(on, groups) => [TSwitch(on), TOpen] + GroupTokens(groups) + [TClose]
    case CCompound(stmts) => [TOpen] + TokensAll(stmts) + [TClose]
  }

  function TokensAll(stmts: seq<CStmt>): seq<Token> {
    if stmts == [] then [] else Tokens(stmts[0]) + TokensAll(stmts[1..])
  }

  function LabelTokens(labels: seq<nat>): seq<Token> {
    if labels == [] then [] else [TCase(labels[0])] + LabelTokens(labels[1..])
  }

  function HeadTokens(g: Group): seq<Token> {
    if g.isDefault then [TDefault] else LabelTokens(g.labels)
  }

  function GroupTokens(groups: seq<Group>): seq<Token> {
    if groups == [] then []
    else HeadTokens(groups[0]) + TokensAll(groups[0].stmts) + GroupTokens(groups[1..])
  }

  lemma {:induction false} TokensAppend(s: seq<CStmt>, t: seq<CStmt>)
    ensures TokensAll(s + t) == TokensAll(s) + TokensAll(t)
    decreases |s|
  {
    if s == [] {
      assert s + t == t;
    } else {
      assert (s + t)[0] == s[0] && (s + t)[1..] == s[1..] + t;
      TokensAppend(s[1..], t);
    }
  }

  lemma {:induction false} TokensOne(s: CStmt)
    ensures TokensAll([s]) == Tokens(s)
  {
    assert TokensAll([s][1..]) == [];
  }

  lemma {:induction false} GroupTokensAppend(s: seq<Group>, t: seq<Group>)
    ensures GroupTokens(s + t) == GroupTokens(s) + GroupTokens(t)
    decreases |s|
  {
    if s == [] {
      assert s + t == t;
    } else {
      assert (s + t)[0] == s[0] && (s + t)[1..] == s[1..] + t;
      GroupTokensAppend(s[1..], t);
    }
  }

  // ----- Reading -----

  datatype Read<T> = Fail | Got(value: T, rest: seq<Token>)

  predicate EndsList(ts: seq<Token>) {
    ts == [] || ts[0].TClose? || ts[0].TCase? || ts[0].TDefault?
  }

  /** A statement; an `else` belongs to the nearest `if` (section 6.8.4.1 of
      ISO/IEC 9899:2011). */
  function ReadStmt(ts: seq<Token>): (r: Read<CStmt>)
    ensures r.Got? ==> |r.rest| < |ts|
    decreases |ts|, 0
  {
    if ts == [] then Fail
    else
      var rest := ts[1..];
      match ts[0]
      case TRun(bb, end) => Got(CRun(bb, end), rest)
      case TSetState(value) => Got(CSetState(value), rest)
      case TDeclare(name) => Got(CDeclare(name), rest)
      case TDeclareFalse(v) => Got(CDeclareFalse(v), rest)
      case TAssignTrue(v) => Got(CAssignTrue(v), rest)
      case TBreak => Got(CBreak, rest)
      case TContinue => Got(CContinue, rest)
      case TIf(cond) =>
        var t := ReadStmt(rest);
        if t.Fail? then Fail
        else if t.rest != [] && t.rest[0].TElse? then
          var e := ReadStmt(t.rest[1..]);
          if e.Fail? then Fail else Got(CIf(cond, t.value, Else(e.value)), e.rest)
        else Got(CIf(cond, t.value, NoElse), t.rest)
      case TWhile(cond) =>
        var b := ReadStmt(rest);
        if b.Fail? then Fail else Got(CWhile(cond, b.value), b.rest)
      case TDo =>
        var b := ReadStmt(rest);
        if b.Fail? || b.rest == [] || !b.rest[0].TWhileEnd? then Fail
        else Got(CDoWhile(b.value, b.rest[0].cond), b.rest[1..])
      case TSwitch(on) =>
        if rest == [] || !rest[0].TOpen? then Fail
        else
          var g := ReadGroups(rest[1..]);
          if g.Fail? || g.rest == [] || !g.rest[0].TClose? then Fail
          else Got(CSwitch(on, g.value), g.rest[1..])
      case TOpen =>
        var b := ReadStmts(rest);
        if b.Fail? || b.rest == [] || !b.rest[0].TClose? then Fail else Got(CCompound(b.value), b.rest[1..])
      case _ => Fail
  }

  function ReadStmts(ts: seq<Token>): (r: Read<seq<CStmt>>)
    ensures r.Got? ==> |r.rest| <= |ts|
    decreases |ts|, 1
  {
    if EndsList(ts) then Got([], ts)
    else
      var first := ReadStmt(ts);
      if first.Fail? then Fail
      else
        var more := ReadStmts(first.rest);
        if more.Fail? then Fail else Got([first.value] + more.value, more.rest)
  }

  function ReadLabels(ts: seq<Token>): (r: Read<seq<nat>>)
    ensures r.Got? && |r.rest| <= |ts|
    decreases |ts|
  {
    if ts == [] || !ts[0].TCase? then Got([], ts)
    else
      var more := ReadLabels(ts[1..]);
      Got([ts[0].value] + more.value, more.rest)
  }

  function ReadGroups(ts: seq<Token>): (r: Read<seq<Group>>)
    ensures r.Got? ==> |r.rest| <= |ts|
    decreases |ts|, 2
  {
    if ts == [] || ts[0].TClose? then Got([], ts)
    else if !ts[0].TCase? && !ts[0].TDefault? then Fail
    else
      var labels := if ts[0].TCase? then ReadLabels(ts[1..]) else Got([], ts[1..]);
      var body := ReadStmts(labels.rest);
      if body.Fail? then Fail
      else
        var more := ReadGroups(body.rest);
        if more.Fail? then Fail
        else
          var g := Group(if ts[0].TCase? then [ts[0].value] + labels.value else [], ts[0].TDefault?, body.value);
          Got([g] + more.value, more.rest)
  }

  // ----- What is printed reads back -----

  /** The shapes of statements that the printer produces: bodies are compound
      statements, except the `break` of a loop break dispatcher. */
  predicate Printable(s: CStmt) {
    match s
    case CIf(_, thn, els) =>
      && (thn.CCompound? || (thn.CBreak? && els.NoElse?)) && Printable(thn)
      && (els.Else? ==> els.s.CCompound? && Printable(els.s))
    case CWhile(_, body) => body.CCompound? && Printable(body)
    case CDoWhile(body, _) => body.CCompound? && Printable(body)
    case CSwitch(_, groups) => forall i :: 0 <= i < |groups| ==> PrintableGroup(groups[i])
    case CCompound(stmts) => forall i :: 0 <= i < |stmts| ==> Printable(stmts[i])
    case _ => true
  }

  predicate PrintableGroup(g: Group) {
    && g.stmts != [] && (g.isDefault <==> g.labels == [])
    && forall i :: 0 <= i < |g.stmts| ==> Printable(g.stmts[i])
  }

  predicate NoElseAhead(rest: seq<Token>) {
    rest == [] || !rest[0].TElse?
  }

  lemma {:induction false} Peel(first: Token, ts: seq<Token>, rest: seq<Token>)
    ensures ([first] + ts) + rest == [first] + (ts + rest)
    ensures ([first] + ts)[0] == first && ([first] + ts)[1..] == ts
  {
  }

  // One step of the reader for every kind of statement, on the tokens behind the first.

  lemma {:induction false} ReadsWhile(cond: CExpr, ts: seq<Token>, body: CStmt, rest: seq<Token>)
    requires ReadStmt(ts) == Got(body, rest)
    ensures ReadStmt([TWhile(cond)] + ts) == Got(CWhile(cond, body), rest)
  {
    Peel(TWhile(cond), ts, []);
  }

  lemma {:induction false} ReadsDoWhile(cond: CExpr, ts: seq<Token>, body: CStmt, rest: seq<Token>)
    requires ReadStmt(ts) == Got(body, [TWhileEnd(cond)] + rest)
    ensures ReadStmt([TDo] + ts) == Got(CDoWhile(body, cond), rest)
  {
    Peel(TDo, ts, []);
    Peel(TWhileEnd(cond), rest, []);
  }

  lemma {:induction false} ReadsIf(cond: CExpr, ts: seq<Token>, thn: CStmt, rest: seq<Token>)
    requires ReadStmt(ts) == Got(thn, rest) && NoElseAhead(rest)
    ensures ReadStmt([TIf(cond)] + ts) == Got(CIf(cond, thn, NoElse), rest)
  {
    Peel(TIf(cond), ts, []);
  }

  lemma {:induction false} ReadsIfElse(cond: CExpr, ts: seq<Token>, thn: CStmt, ts2: seq<Token>, els: CStmt,
                                       rest: seq<Token>)
    requires ReadStmt(ts) == Got(thn, [TElse] + ts2) && ReadStmt(ts2) == Got(els, rest)
    ensures ReadStmt([TIf(cond)] + ts) == Got(CIf(cond, thn, Else(els)), rest)
  {
    Peel(TIf(cond), ts, []);
    Peel(TElse, ts2, []);
  }

  lemma {:induction false} ReadsCompound(ts: seq<Token>, stmts: seq<CStmt>, rest: seq<Token>)
    requires ReadStmts(ts) == Got(stmts, [TClose] + rest)
    ensures ReadStmt([TOpen] + ts) == Got(CCompound(stmts), rest)
  {
    Peel(TOpen, ts, []);
    Peel(TClose, rest, []);
  }

  lemma {:induction false} ReadsSwitch(on: Scrutinee, ts: seq<Token>, groups: seq<Group>, rest: seq<Token>)
    requires ReadGroups(ts) == Got(groups, [TClose] + rest)
    ensures ReadStmt([TSwitch(on)] + ([TOpen] + ts)) == Got(CSwitch(on, groups), rest)
  {
    Peel(TSwitch(on), [TOpen] + ts, []);
    Peel(TOpen, ts, []);
    Peel(TClose, rest, []);
  }

  lemma {:induction false} ReadsMore(ts: seq<Token>, s: CStmt, rest: seq<Token>, more: seq<CStmt>, rest2: seq<Token>)
    requires !EndsList(ts) && ReadStmt(ts) == Got(s, rest) && ReadStmts(rest) == Got(more, rest2)
    ensures ReadStmts(ts) == Got([s] + more, rest2)
  {
  }

  lemma {:induction false} StmtReads(s: CStmt, rest: seq<Token>)
    requires Printable(s) && NoElseAhead(rest)
    ensures ReadStmt(Tokens(s) + rest) == Got(s, rest)
    decreases s, 1
  {
    match s
    case CIf(_, _, _) => IfReads(s, rest);
    case CWhile(_, _) => LoopReads(s, rest);
    case CDoWhile(_, _) => LoopReads(s, rest);
    case CSwitch(on, groups) => SwitchReads(on, groups, rest);
    case CCompound(stmts) => CompoundReads(stmts, rest);
    case _ => LeafReads(s, rest);
  }

  lemma {:induction false} SwitchReads(on: Scrutinee, groups: seq<Group>, rest: seq<Token>)
    requires forall i :: 0 <= i < |groups| ==> PrintableGroup(groups[i])
    ensures ReadStmt(Tokens(CSwitch(on, groups)) + rest) == Got(CSwitch(on, groups), rest)
    decreases groups, 1
  {
    var ts := GroupTokens(groups) + ([TClose] + rest);
    GroupsRead(groups, [TClose] + rest);
    ReadsSwitch(on, ts, groups, rest);
    assert Tokens(CSwitch(on, groups)) == [TSwitch(on), TOpen] + GroupTokens(groups) + [TClose];
    Regroup(TSwitch(on), TOpen, GroupTokens(groups), TClose, rest);
  }

  lemma {:induction false} Regroup(a: Token, b: Token, ts: seq<Token>, c: Token, rest: seq<Token>)
    ensures ([a, b] + ts + [c]) + rest == [a] + ([b] + (ts + ([c] + rest)))
  {
  }

  lemma {:induction false} LeafReads(s: CStmt, rest: seq<Token>)
    requires !s.CIf? && !s.CWhile? && !s.CDoWhile? && !s.CSwitch? && !s.CCompound?
    ensures ReadStmt(Tokens(s) + rest) == Got(s, rest)
  {
    var t := Tokens(s);
    assert t == [t[0]];
    assert (t + rest)[0] == t[0] && (t + rest)[1..] == rest;
  }

  lemma {:induction false} LoopReads(s: CStmt, rest: seq<Token>)
    requires (s.CWhile? || s.CDoWhile?) && Printable(s) && NoElseAhead(rest)
    ensures ReadStmt(Tokens(s) + rest) == Got(s, rest)
    decreases s, 0
  {
    var body := Tokens(s.body);
    if s.CWhile? {
      StmtReads(s.body, rest);
      ReadsWhile(s.cond, body + rest, s.body, rest);
      Peel(TWhile(s.cond), body, rest);
    } else {
      var tail := [TWhileEnd(s.cond)] + rest;
      StmtReads(s.body, tail);
      ReadsDoWhile(s.cond, body + tail, s.body, rest);
      assert Tokens(s) + rest == [TDo] + (body + tail);
    }
  }

  lemma {:induction false} IfReads(s: CStmt, rest: seq<Token>)
    requires s.CIf? && Printable(s) && NoElseAhead(rest)
    ensures ReadStmt(Tokens(s) + rest) == Got(s, rest)
    decreases s, 0
  {
    IfRegroups(s, rest);
    if s.els.Else? {
      var ts2 := Tokens(s.els.s) + rest;
      CompoundReads(s.thn.stmts, [TElse] + ts2);
      StmtReads(s.els.s, rest);
      ReadsIfElse(s.cond, Tokens(s.thn) + ([TElse] + ts2), s.thn, ts2, s.els.s, rest);
    } else {
      StmtReads(s.thn, rest);
      ReadsIf(s.cond, Tokens(s.thn) + rest, s.thn, rest);
    }
  }

  lemma {:induction false} IfRegroups(s: CStmt, rest: seq<Token>)
    requires s.CIf?
    ensures Tokens(s) + rest
         == [TIf(s.cond)] + (Tokens(s.thn) + if s.els.Else? then [TElse] + (Tokens(s.els.s) + rest) else rest)
  {
    var other := if s.els.Else? then [TElse] + Tokens(s.els.s) else [];
    Regroup3([TIf(s.cond)], Tokens(s.thn), other, rest);
    if s.els.Else? { Peel(TElse, Tokens(s.els.s), rest); }
  }

  lemma {:induction false} Regroup3(a: seq<Token>, b: seq<Token>, c: seq<Token>, d: seq<Token>)
    ensures (a + b + c) + d == a + (b + (c + d))
  {
  }

  /** Behind the brace of a compound statement anything may follow. */
  lemma {:induction false} CompoundReads(stmts: seq<CStmt>, rest: seq<Token>)
    requires forall i :: 0 <= i < |stmts| ==> Printable(stmts[i])
    ensures ReadStmt(Tokens(CCompound(stmts)) + rest) == Got(CCompound(stmts), rest)
    decreases stmts, 1
  {
    StmtsRead(stmts, [TClose] + rest);
    ReadsCompound(TokensAll(stmts) + ([TClose] + rest), stmts, rest);
    assert Tokens(CCompound(stmts)) + rest == [TOpen] + (TokensAll(stmts) + ([TClose] + rest));
  }

  /** Statements start neither like the end of a list nor with `else`. */
  lemma {:induction false} StmtStarts(s: CStmt, rest: seq<Token>)
    ensures !EndsList(Tokens(s) + rest) && NoElseAhead(Tokens(s) + rest)
  {
    assert (Tokens(s) + rest)[0] == Tokens(s)[0];
  }

  lemma {:induction false} NoElseFirst(stmts: seq<CStmt>, rest: seq<Token>)
    requires NoElseAhead(rest)
    ensures NoElseAhead(TokensAll(stmts) + rest)
    ensures stmts != [] ==> !EndsList(TokensAll(stmts) + rest)
  {
    if stmts == [] {
      assert TokensAll(stmts) + rest == rest;
    } else {
      StmtStarts(stmts[0], TokensAll(stmts[1..]) + rest);
      assert TokensAll(stmts) + rest == Tokens(stmts[0]) + (TokensAll(stmts[1..]) + rest);
    }
  }

  lemma {:induction false} StmtsRead(stmts: seq<CStmt>, rest: seq<Token>)
    requires (forall i :: 0 <= i < |stmts| ==> Printable(stmts[i])) && EndsList(rest)
    ensures ReadStmts(TokensAll(stmts) + rest) == Got(stmts, rest)
    decreases stmts, 0
  {
    if stmts == [] {
      assert TokensAll(stmts) + rest == rest;
    } else {
      var tail := TokensAll(stmts[1..]) + rest;
      NoElseFirst(stmts[1..], rest);
      StmtsRead(stmts[1..], rest);
      StmtReads(stmts[0], tail);
      StmtStarts(stmts[0], tail);
      ReadsMore(Tokens(stmts[0]) + tail, stmts[0], tail, stmts[1..], rest);
      assert TokensAll(stmts) + rest == Tokens(stmts[0]) + tail;
      assert stmts == [stmts[0]] + stmts[1..];
    }
  }

  lemma {:induction false} LabelsRead(labels: seq<nat>, rest: seq<Token>)
    requires rest == [] || !rest[0].TCase?
    ensures ReadLabels(LabelTokens(labels) + rest) == Got(labels, rest)
  {
    if labels == [] {
      assert LabelTokens(labels) + rest == rest;
    } else {
      LabelsRead(labels[1..], rest);
      Peel(TCase(labels[0]), LabelTokens(labels[1..]), rest);
      Peel(TCase(labels[0]), LabelTokens(labels[1..]) + rest, []);
      assert labels == [labels[0]] + labels[1..];
    }
  }

  lemma {:induction false} ReadsDefault(ts: seq<Token>, stmts: seq<CStmt>, rest: seq<Token>, more: seq<Group>,
                                        rest2: seq<Token>)
    requires ReadStmts(ts) == Got(stmts, rest) && ReadGroups(rest) == Got(more, rest2)
    ensures ReadGroups([TDefault] + ts) == Got([Group([], true, stmts)] + more, rest2)
  {
    Peel(TDefault, ts, []);
  }

  lemma {:induction false} ReadsCases(value: nat, ts: seq<Token>, labels: seq<nat>, body: seq<Token>, stmts: seq<CStmt>,
                                      rest: seq<Token>, more: seq<Group>, rest2: seq<Token>)
    requires ReadLabels(ts) == Got(labels, body) && ReadStmts(body) == Got(stmts, rest)
    requires ReadGroups(rest) == Got(more, rest2)
    ensures ReadGroups([TCase(value)] + ts) == Got([Group([value] + labels, false, stmts)] + more, rest2)
  {
    Peel(TCase(value), ts, []);
  }

  lemma {:induction false} GroupReads(g: Group, tail: seq<Token>, more: seq<Group>, rest: seq<Token>)
    requires PrintableGroup(g) && EndsList(tail) && ReadGroups(tail) == Got(more, rest)
    ensures ReadGroups((HeadTokens(g) + TokensAll(g.stmts)) + tail) == Got([g] + more, rest)
    decreases g, 0
  {
    var body := TokensAll(g.stmts) + tail;
    StmtsRead(g.stmts, tail);
    NoElseFirst(g.stmts, tail);
    assert (HeadTokens(g) + TokensAll(g.stmts)) + tail == HeadTokens(g) + body;
    if g.isDefault {
      ReadsDefault(body, g.stmts, tail, more, rest);
    } else {
      LabelsRead(g.labels[1..], body);
      ReadsCases(g.labels[0], LabelTokens(g.labels[1..]) + body, g.labels[1..], body, g.stmts, tail, more, rest);
      Peel(TCase(g.labels[0]), LabelTokens(g.labels[1..]), body);
      assert g.labels == [g.labels[0]] + g.labels[1..];
    }
  }

  lemma {:induction false} GroupsRead(groups: seq<Group>, rest: seq<Token>)
    requires (forall i :: 0 <= i < |groups| ==> PrintableGroup(groups[i])) && rest != [] && rest[0].TClose?
    ensures ReadGroups(GroupTokens(groups) + rest) == Got(groups, rest)
    ensures EndsList(GroupTokens(groups) + rest)
    decreases groups, 0
  {
    if groups == [] {
      assert GroupTokens(groups) + rest == rest;
    } else {
      var g, tail := groups[0], GroupTokens(groups[1..]) + rest;
      GroupsRead(groups[1..], rest);
      GroupReads(g, tail, groups[1..], rest);
      GroupsRegroup(groups, rest);
      assert groups == [g] + groups[1..];
    }
  }

  lemma {:induction false} GroupsRegroup(groups: seq<Group>, rest: seq<Token>)
    requires groups != [] && PrintableGroup(groups[0])
    ensures GroupTokens(groups) + rest
         == (HeadTokens(groups[0]) + TokensAll(groups[0].stmts)) + (GroupTokens(groups[1..]) + rest)
    ensures EndsList(GroupTokens(groups) + rest)
  {
    var head, body, tail := HeadTokens(groups[0]), TokensAll(groups[0].stmts), GroupTokens(groups[1..]);
    assert head != [] && (head[0].TCase? || head[0].TDefault?);
    assert GroupTokens(groups) == head + body + tail;
    HeadAhead(head, body, tail, rest);
  }

  lemma {:induction false} HeadAhead(head: seq<Token>, body: seq<Token>, tail: seq<Token>, rest: seq<Token>)
    requires head != []
    ensures (head + body + tail) + rest == (head + body) + (tail + rest)
    ensures ((head + body + tail) + rest)[0] == head[0]
  {
  }
}

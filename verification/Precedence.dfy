/** Printing expressions with the parentheses that the precedence pass chooses, and
    reading the tokens back with the grammar of C. */
module Precedence {

  // ----- What is printed -----

  datatype CmpOp = Eq | Ne | Lt | Le | Gt | Ge

  /** The binary instructions; `And1` and `Or1` are those on one-bit integers. */
  datatype BinaryOpcode =
    | Or1 | Or | Xor | And1 | And | ICmp(pred: CmpOp) | Shl | LShr | AShr
    | Add | Sub | Mul | UDiv | SDiv | URem | SRem

  /** `Silent` covers the casts that C prints as nothing: sign and zero extension,
      truncation, and model casts between equal types. */
  datatype UnaryOpcode = AddressOf | CastTo(target: nat) | UnaryMinus | BinaryNot | BooleanNot | Silent

  /** An operand tree. `Name` stands for everything printed as an identifier or a
      literal, `Transparent` for the opcodes that the pass looks through. */
  datatype Value =
    | Name(id: nat)
    | Transparent(v: Value)
    | Unary(uop: UnaryOpcode, v: Value)
    | Access(v: Value, field: nat)
    | Index(v: Value, index: Value)
    | Call(callee: Value, args: seq<Value>)
    | Binary(op: BinaryOpcode, l: Value, r: Value)
    | Select(c: Value, t: Value, f: Value)

  // ----- The precedence table -----

  datatype Associativity = LeftToRight | RightToLeft

  datatype Arity = UnaryArity | BinaryArity | TernaryArity | NAry

  datatype OperatorInfo = OperatorInfo(precedence: nat, forced: nat, assoc: Associativity, arity: Arity)

  function BinaryInfo(op: BinaryOpcode): OperatorInfo {
    match op
    case Or1 => OperatorInfo(12, 0, LeftToRight, BinaryArity)
    case Or => OperatorInfo(10, 7, LeftToRight, BinaryArity)
    case Xor => OperatorInfo(9, 6, LeftToRight, BinaryArity)
    case And1 => OperatorInfo(11, 0, LeftToRight, BinaryArity)
    case And => OperatorInfo(8, 5, LeftToRight, BinaryArity)
    case ICmp(_) => OperatorInfo(6, 0, LeftToRight, BinaryArity)
    case Shl => OperatorInfo(5, 2, LeftToRight, BinaryArity)
    case LShr => OperatorInfo(5, 2, LeftToRight, BinaryArity)
    case AShr => OperatorInfo(5, 2, LeftToRight, BinaryArity)
    case Add => OperatorInfo(4, 0, LeftToRight, BinaryArity)
    case Sub => OperatorInfo(4, 0, LeftToRight, BinaryArity)
    case _ => OperatorInfo(3, 0, LeftToRight, BinaryArity)
  }

  /** The table entry of an instruction; names and transparent opcodes have none. */
  function Info(v: Value): OperatorInfo
    requires !v.Name? && !v.Transparent?
  {
    match v
    case Unary(_, _) => OperatorInfo(2, 0, RightToLeft, UnaryArity)
    case Access(_, _) => OperatorInfo(1, 0, LeftToRight, UnaryArity)
    case Index(_, _) => OperatorInfo(1, 0, LeftToRight, UnaryArity)
    case Call(_, _) => OperatorInfo(0, 0, LeftToRight, NAry)
    case Binary(op, _, _) => BinaryInfo(op)
    case Select(_, _, _) => OperatorInfo(13, 0, RightToLeft, TernaryArity)
  }

  function Traverse(v: Value): (r: Value)
    ensures !r.Transparent?
  {
    if v.Transparent? then Traverse(v.v) else v
  }

  /** The loop that looks through transparent opcodes. */
  method TraverseTransparentOpcodes(v: Value) returns (r: Value)
    ensures r == Traverse(v) && !r.Transparent?
  {
    r := v;
    while r.Transparent?
      invariant Traverse(r) == Traverse(v)
      decreases r
    {
      r := r.v;
    }
  }

  /** Whether operand number `no` of `parent`, holding `operand`, is put in parentheses. */
  function NeedsParentheses(parent: Value, no: nat, operand: Value): bool
    requires !parent.Name?
  {
    if parent.Transparent? then false
    else if (parent.Index? || parent.Call?) && no != 0 then false
    else
      var op := Traverse(operand);
      if op.Name? then false
      else
        var i, o := Info(parent), Info(op);
        if i.precedence == o.precedence then
          match i.arity
          case NAry => false
          case UnaryArity => false
          case BinaryArity =>
            !((i.assoc.LeftToRight? && no == 0) || (i.assoc.RightToLeft? && no != 0))
          case TernaryArity => true
        else if i.precedence < o.precedence then true
        else i.precedence - o.precedence <= i.forced
  }

  /** The operators whose operands get parentheses that the grammar does not ask for. */
  predicate ForcesParentheses(op: COp) {
    op.BitOr? || op.BitXor? || op.BitAnd? || op.LShift? || op.RShift?
  }

  /** Which operands are put in parentheses, for every kind of operator. */
  lemma ParenthesesIff(v: Value, no: nat, operand: Value)
    requires !v.Name? && !v.Transparent?
    ensures var x := Traverse(operand);
            var loose := x.Binary? || x.Select?;
            NeedsParentheses(v, no, operand)
            <==> match v
                 case Call(_, _) => no == 0 && !x.Name? && !x.Call?
                 case Index(_, _) => no == 0 && (x.Unary? || loose)
                 case Access(_, _) => x.Unary? || loose
                 case Unary(_, _) => loose
                 case Select(_, _, _) => x.Select?
                 case Binary(op, _, _) =>
                   || x.Select?
                   || (x.Binary? && (
                         var outer, inner := COpLevel(COperator(op)), COpLevel(COperator(x.op));
                         || inner > outer || (inner == outer && no != 0)
                         || (inner < outer && ForcesParentheses(COperator(op)))))
  {
  }

  /** Operands on the same level always agree on associativity, as the pass asserts. */
  lemma SameLevelSameAssociativity(a: Value, b: Value)
    requires !a.Name? && !a.Transparent? && !b.Name? && !b.Transparent?
    requires Info(a).precedence == Info(b).precedence
    ensures Info(a).assoc == Info(b).assoc && Info(a).arity == Info(b).arity
  {
  }

  // ----- Tokens -----

  datatype COp =
    | LogOr | BitOr | BitXor | LogAnd | BitAnd | Compare(cmp: CmpOp) | LShift | RShift
    | Plus | Minus | Times | Divide | Modulo

  datatype Token =
    | TName(id: nat) | TLParen | TRParen | TLBracket | TRBracket | TComma | TQuestion | TColon
    | TPrefix(uop: UnaryOpcode) | TField(field: nat) | TOp(op: COp)

  function COperator(op: BinaryOpcode): COp {
    match op
    case Or1 => LogOr
    case Or => BitOr
    case Xor => BitXor
    case And1 => LogAnd
    case And => BitAnd
    case ICmp(pred) => Compare(pred)
    case Shl => LShift
    case LShr => RShift
    case AShr => RShift
    case Add => Plus
    case Sub => Minus
    case Mul => Times
    case UDiv => Divide
    case SDiv => Divide
    case URem => Modulo
    case SRem => Modulo
  }

  /** The levels of the grammar of C, sections 6.5.5 to 6.5.14 of ISO/IEC 9899:2011, in
      their order there; both levels of comparisons are read as one. */
  function COpLevel(op: COp): nat {
    match op
    case Times => 3
    case Divide => 3
    case Modulo => 3
    case Plus => 4
    case Minus => 4
    case LShift => 5
    case RShift => 5
    case Compare(_) => 6
    case BitAnd => 8
    case BitXor => 9
    case BitOr => 10
    case LogAnd => 11
    case LogOr => 12
  }

  function Parenthesized(needed: bool, t: seq<Token>): seq<Token> {
    if needed then [TLParen] + t + [TRParen] else t
  }

  function Print(v: Value): seq<Token>
    decreases v, 0
  {
    match v
    case Name(id) => [TName(id)]
    case Transparent(x) => Print(x)
    case Unary(op, x) =>
      (if op.Silent? then [] else [TPrefix(op)]) + Parenthesized(NeedsParentheses(v, 0, x), Print(x))
    case Access(x, field) => Parenthesized(NeedsParentheses(v, 0, x), Print(x)) + [TField(field)]
    case Index(x, index) =>
      Parenthesized(NeedsParentheses(v, 0, x), Print(x)) + ([TLBracket] + Print(index) + [TRBracket])
    case Call(callee, args) =>
      Parenthesized(NeedsParentheses(v, 0, callee), Print(callee)) + ([TLParen] + PrintArgs(args) + [TRParen])
    case Binary(op, l, r) =>
      Parenthesized(NeedsParentheses(v, 0, l), Print(l))
      + ([TOp(COperator(op))] + Parenthesized(NeedsParentheses(v, 1, r), Print(r)))
    case Select(c, t, f) =>
      Parenthesized(NeedsParentheses(v, 0, c), Print(c))
      + ([TQuestion] + Parenthesized(NeedsParentheses(v, 1, t), Print(t))
         + ([TColon] + Parenthesized(NeedsParentheses(v, 2, f), Print(f))))
  }

  function PrintArgs(args: seq<Value>): seq<Token>
    decreases args, 0
  {
    if args == [] then []
    else if |args| == 1 then Print(args[0])
    else Print(args[0]) + ([TComma] + PrintArgs(args[1..]))
  }

  // ----- Reading back -----

  /** The tree of a C expression; parentheses leave no node. */
  datatype CTree =
    | CName(id: nat)
    | CPrefix(uop: UnaryOpcode, e: CTree)
    | CField(e: CTree, field: nat)
    | CIndex(e: CTree, index: CTree)
    | CCall(callee: CTree, args: seq<CTree>)
    | CBinary(op: COp, l: CTree, r: CTree)
    | CTernary(c: CTree, t: CTree, f: CTree)

  /** The C expression that a value means, independent of how it is printed. */
  function Meaning(v: Value): CTree {
    match v
    case Name(id) => CName(id)
    case Transparent(x) => Meaning(x)
    case Unary(op, x) => if op.Silent? then Meaning(x) else CPrefix(op, Meaning(x))
    case Access(x, field) => CField(Meaning(x), field)
    case Index(x, index) => CIndex(Meaning(x), Meaning(index))
    case Call(callee, args) => CCall(Meaning(callee), Meanings(args))
    case Binary(op, l, r) => CBinary(COperator(op), Meaning(l), Meaning(r))
    case Select(c, t, f) => CTernary(Meaning(c), Meaning(t), Meaning(f))
  }

  function Meanings(args: seq<Value>): seq<CTree> {
    if args == [] then [] else [Meaning(args[0])] + Meanings(args[1..])
  }

  datatype Reading = Failed | Ok(tree: CTree, rest: seq<Token>)

  datatype ArgsReading = ArgsFailed | ArgsOk(args: seq<CTree>, rest: seq<Token>)

  predicate Next(t: seq<Token>, k: Token) {
    t != [] && t[0] == k
  }

  /** Reads one expression of the given level: 1 is a name, a parenthesized expression
      or a postfix form, 2 adds prefix operators, 3 to 12 are the left-associative
      binary levels, 13 is the conditional. */
  function ReadLevel(level: nat, t: seq<Token>): (r: Reading)
    requires 1 <= level <= 13
    ensures r.Ok? ==> |r.rest| < |t|
    decreases |t|, level, 1
  {
    if level == 13 then
      var c := ReadLevel(12, t);
      if c.Ok? && Next(c.rest, TQuestion) then
        var a := ReadLevel(13, c.rest[1..]);
        if a.Ok? && Next(a.rest, TColon) then
          var b := ReadLevel(13, a.rest[1..]);
          if b.Ok? then Ok(CTernary(c.tree, a.tree, b.tree), b.rest) else Failed
        else Failed
      else c
    else if level >= 3 then
      var first := ReadLevel(level - 1, t);
      if first.Ok? then ReadOperators(level, first.tree, first.rest) else Failed
    else if level == 2 then
      if t != [] && t[0].TPrefix? then
        var o := ReadLevel(2, t[1..]);
        if o.Ok? then Ok(CPrefix(t[0].uop, o.tree), o.rest) else Failed
      else ReadLevel(1, t)
    else if t != [] && t[0].TName? then ReadPostfix(CName(t[0].id), t[1..])
    else if Next(t, TLParen) then
      var e := ReadLevel(13, t[1..]);
      if e.Ok? && Next(e.rest, TRParen) then ReadPostfix(e.tree, e.rest[1..]) else Failed
    else Failed
  }

  function ReadOperators(level: nat, left: CTree, t: seq<Token>): (r: Reading)
    requires 3 <= level <= 12
    ensures r.Ok? ==> |r.rest| <= |t|
    decreases |t|, level, 0
  {
    if t != [] && t[0].TOp? && COpLevel(t[0].op) == level then
      var o := ReadLevel(level - 1, t[1..]);
      if o.Ok? then ReadOperators(level, CBinary(t[0].op, left, o.tree), o.rest) else Failed
    else Ok(left, t)
  }

  function ReadPostfix(e: CTree, t: seq<Token>): (r: Reading)
    ensures r.Ok? ==> |r.rest| <= |t|
    decreases |t|, 0, 0
  {
    if t != [] && t[0].TField? then ReadPostfix(CField(e, t[0].field), t[1..])
    else if Next(t, TLBracket) then
      var i := ReadLevel(13, t[1..]);
      if i.Ok? && Next(i.rest, TRBracket) then ReadPostfix(CIndex(e, i.tree), i.rest[1..]) else Failed
    else if Next(t, TLParen) then
      if Next(t[1..], TRParen) then ReadPostfix(CCall(e, []), t[2..])
      else
        var a := ReadArgs(t[1..]);
        if a.ArgsOk? then ReadPostfix(CCall(e, a.args), a.rest) else Failed
    else Ok(e, t)
  }

  /** Reads a non-empty argument list and its closing parenthesis. */
  function ReadArgs(t: seq<Token>): (r: ArgsReading)
    ensures r.ArgsOk? ==> |r.rest| < |t|
    decreases |t|, 14, 0
  {
    var first := ReadLevel(13, t);
    if first.Failed? then ArgsFailed
    else if Next(first.rest, TRParen) then ArgsOk([first.tree], first.rest[1..])
    else if Next(first.rest, TComma) then
      var more := ReadArgs(first.rest[1..]);
      if more.ArgsOk? then ArgsOk([first.tree] + more.args, more.rest) else ArgsFailed
    else ArgsFailed
  }

  // ----- Round trip -----

  /** The level on which a printed value can be read. */
  function Level(v: Value): (l: nat)
    ensures l <= 13
  {
    var op := Traverse(v);
    if op.Name? then 0 else Info(op).precedence
  }

  predicate StartsPostfix(k: Token) {
    k.TField? || k.TLBracket? || k.TLParen?
  }

  /** The tokens `rest` cannot continue an expression of the given level. */
  predicate Stops(rest: seq<Token>, level: nat) {
    rest != [] ==>
      && !StartsPostfix(rest[0])
      && (rest[0].TOp? ==> COpLevel(rest[0].op) > level)
      && (level >= 13 ==> !rest[0].TQuestion?)
  }

  /** The table of the pass agrees with the grammar. */
  lemma LevelOfCOperator(op: BinaryOpcode)
    ensures COpLevel(COperator(op)) == BinaryInfo(op).precedence
    ensures 3 <= BinaryInfo(op).precedence <= 12
  {
  }

  /** A parenthesized value can be read on every level. */
  lemma {:induction false} ParenthesesRead(v: Value, rest: seq<Token>)
    ensures ReadLevel(1, Parenthesized(true, Print(v)) + rest) == ReadPostfix(Meaning(v), rest)
    decreases v, 100
  {
    var t := Parenthesized(true, Print(v)) + rest;
    assert t[1..] == Print(v) + ([TRParen] + rest);
    ValueReads(v, 13, [TRParen] + rest);
    assert ([TRParen] + rest)[1..] == rest;
  }

  /** Reading a postfix value goes on with the postfix forms that follow it. */
  lemma {:induction false} PostfixReads(v: Value, rest: seq<Token>)
    requires Level(v) <= 1
    ensures ReadLevel(1, Print(v) + rest) == ReadPostfix(Meaning(v), rest)
    decreases v, 1
  {
    match v
    case Name(id) => assert ([TName(id)] + rest)[1..] == rest;
    case Transparent(x) => PostfixReads(x, rest);
    case Access(x, field) =>
      var operand := Parenthesized(NeedsParentheses(v, 0, x), Print(x));
      PostfixOperandReads(v, x, [TField(field)] + rest);
      FieldStep(Meaning(x), field, rest);
      Reassociate(operand, [TField(field)], rest);
    case Index(x, index) => IndexReads(v, rest);
    case Call(callee, args) => CallValueReads(v, rest);
  }

  lemma Reassociate(a: seq<Token>, b: seq<Token>, c: seq<Token>)
    ensures a + b + c == a + (b + c)
  {
  }

  lemma {:induction false} IndexReads(v: Value, rest: seq<Token>)
    requires v.Index?
    ensures ReadLevel(1, Print(v) + rest) == ReadPostfix(Meaning(v), rest)
    decreases v, 0
  {
    var operand := Parenthesized(NeedsParentheses(v, 0, v.v), Print(v.v));
    var index := Print(v.index);
    PostfixOperandReads(v, v.v, [TLBracket] + index + [TRBracket] + rest);
    ValueReads(v.index, 13, [TRBracket] + rest);
    IndexStep(Meaning(v.v), index, Meaning(v.index), rest);
    Reassociate(operand, [TLBracket] + index + [TRBracket], rest);
  }

  lemma {:induction false} CallValueReads(v: Value, rest: seq<Token>)
    requires v.Call?
    ensures ReadLevel(1, Print(v) + rest) == ReadPostfix(Meaning(v), rest)
    decreases v, 0
  {
    var operand := Parenthesized(NeedsParentheses(v, 0, v.callee), Print(v.callee));
    var args := PrintArgs(v.args);
    PostfixOperandReads(v, v.callee, [TLParen] + args + [TRParen] + rest);
    CallReads(Meaning(v.callee), v.args, rest);
    Reassociate(operand, [TLParen] + args + [TRParen], rest);
  }

  lemma FieldStep(e: CTree, field: nat, rest: seq<Token>)
    ensures ReadPostfix(e, [TField(field)] + rest) == ReadPostfix(CField(e, field), rest)
  {
    assert ([TField(field)] + rest)[1..] == rest;
  }

  lemma IndexStep(e: CTree, index: seq<Token>, i: CTree, rest: seq<Token>)
    requires ReadLevel(13, index + ([TRBracket] + rest)) == Ok(i, [TRBracket] + rest)
    ensures ReadPostfix(e, [TLBracket] + index + [TRBracket] + rest) == ReadPostfix(CIndex(e, i), rest)
  {
    var t := [TLBracket] + index + [TRBracket] + rest;
    assert t[1..] == index + ([TRBracket] + rest);
    assert ([TRBracket] + rest)[1..] == rest;
  }

  lemma {:induction false} PostfixOperandReads(v: Value, x: Value, rest: seq<Token>)
    requires (v.Access? && x == v.v) || (v.Index? && x == v.v) || (v.Call? && x == v.callee)
    ensures ReadLevel(1, Parenthesized(NeedsParentheses(v, 0, x), Print(x)) + rest) == ReadPostfix(Meaning(x), rest)
    decreases x, 102
  {
    if NeedsParentheses(v, 0, x) { ParenthesesRead(x, rest); } else { PostfixReads(x, rest); }
  }

  lemma {:induction false} CallReads(callee: CTree, args: seq<Value>, rest: seq<Token>)
    ensures ReadPostfix(callee, [TLParen] + PrintArgs(args) + [TRParen] + rest)
         == ReadPostfix(CCall(callee, Meanings(args)), rest)
    decreases args, 1
  {
    var t := [TLParen] + PrintArgs(args) + [TRParen] + rest;
    if args == [] {
      assert t == [TLParen, TRParen] + rest && t[1..] == [TRParen] + rest && t[2..] == rest;
    } else {
      assert t[1..] == PrintArgs(args) + ([TRParen] + rest);
      ArgsRead(args, rest);
      ArgsDoNotClose(args, [TRParen] + rest);
    }
  }

  /** The first token of a printed value is never a closing parenthesis. */
  lemma {:induction false} PrintStarts(v: Value)
    ensures Print(v) != [] && !Print(v)[0].TRParen?
  {
    match v
    case Transparent(x) => PrintStarts(x);
    case Unary(_, x) => PrintStarts(x);
    case Access(x, _) => PrintStarts(x);
    case Index(x, _) => PrintStarts(x);
    case Call(x, _) => PrintStarts(x);
    case Binary(_, l, _) => PrintStarts(l);
    case Select(c, _, _) => PrintStarts(c);
    case _ =>
  }

  lemma ArgsDoNotClose(args: seq<Value>, rest: seq<Token>)
    requires args != []
    ensures !Next(PrintArgs(args) + rest, TRParen)
  {
    PrintStarts(args[0]);
  }

  lemma {:induction false} ArgsRead(args: seq<Value>, rest: seq<Token>)
    requires args != []
    ensures ReadArgs(PrintArgs(args) + ([TRParen] + rest)) == ArgsOk(Meanings(args), rest)
    decreases args, 0
  {
    if |args| == 1 {
      ValueReads(args[0], 13, [TRParen] + rest);
      LastArgStep(Print(args[0]), Meaning(args[0]), rest);
      assert Meanings(args) == [Meaning(args[0])];
    } else {
      var more := PrintArgs(args[1..]) + ([TRParen] + rest);
      assert PrintArgs(args) + ([TRParen] + rest) == Print(args[0]) + ([TComma] + more);
      ValueReads(args[0], 13, [TComma] + more);
      ArgsRead(args[1..], rest);
      ArgStep(Print(args[0]), Meaning(args[0]), more, Meanings(args[1..]), rest);
    }
  }

  lemma LastArgStep(t: seq<Token>, e: CTree, rest: seq<Token>)
    requires ReadLevel(13, t + ([TRParen] + rest)) == Ok(e, [TRParen] + rest)
    ensures ReadArgs(t + ([TRParen] + rest)) == ArgsOk([e], rest)
  {
    assert ([TRParen] + rest)[1..] == rest;
  }

  lemma ArgStep(t: seq<Token>, e: CTree, more: seq<Token>, es: seq<CTree>, rest: seq<Token>)
    requires ReadLevel(13, t + ([TComma] + more)) == Ok(e, [TComma] + more)
    requires ReadArgs(more) == ArgsOk(es, rest)
    ensures ReadArgs(t + ([TComma] + more)) == ArgsOk([e] + es, rest)
  {
    assert ([TComma] + more)[1..] == more;
  }

  lemma {:induction false} BinaryPrints(v: Value, rest: seq<Token>)
    requires v.Binary?
    ensures var right := Parenthesized(NeedsParentheses(v, 1, v.r), Print(v.r)) + rest;
            var more := [TOp(COperator(v.op))] + right;
            Print(v) + rest == Parenthesized(NeedsParentheses(v, 0, v.l), Print(v.l)) + more && more[1..] == right
  {
  }

  /** On a binary level, reading a value goes on with the operators that follow it. */
  lemma {:induction false} OperatorsRead(v: Value, level: nat, rest: seq<Token>)
    requires 3 <= level <= 12 && Level(v) <= level && Stops(rest, level - 1)
    ensures ReadLevel(level, Print(v) + rest) == ReadOperators(level, Meaning(v), rest)
    decreases v, 2 * level
  {
    if Level(v) < level {
      ValueReads(v, level - 1, rest);
    } else {
      match v
      case Transparent(x) => OperatorsRead(x, level, rest);
      case Binary(op, l, r) =>
        LevelOfCOperator(op);
        var right := Parenthesized(NeedsParentheses(v, 1, r), Print(r)) + rest;
        var more := [TOp(COperator(op))] + right;
        BinaryPrints(v, rest);
        LeftOperandReads(v, level, more);
        RightOperandReads(v, level, rest);
    }
  }

  lemma {:induction false} LeftOperandReads(v: Value, level: nat, more: seq<Token>)
    requires v.Binary? && level == BinaryInfo(v.op).precedence && Stops(more, level - 1)
    ensures 3 <= level <= 12
    ensures ReadLevel(level, Parenthesized(NeedsParentheses(v, 0, v.l), Print(v.l)) + more)
         == ReadOperators(level, Meaning(v.l), more)
    decreases v, 0
  {
    LevelOfCOperator(v.op);
    if NeedsParentheses(v, 0, v.l) {
      ParenthesesReadAt(v.l, level - 1, more);
    } else {
      OperatorsRead(v.l, level, more);
    }
  }

  lemma {:induction false} RightOperandReads(v: Value, level: nat, rest: seq<Token>)
    requires v.Binary? && level == BinaryInfo(v.op).precedence && Stops(rest, level - 1)
    ensures 3 <= level <= 12
    ensures ReadLevel(level - 1, Parenthesized(NeedsParentheses(v, 1, v.r), Print(v.r)) + rest)
         == Ok(Meaning(v.r), rest)
    decreases v, 0
  {
    LevelOfCOperator(v.op);
    if NeedsParentheses(v, 1, v.r) {
      ParenthesesReadAt(v.r, level - 1, rest);
    } else {
      ValueReads(v.r, level - 1, rest);
    }
  }

  lemma {:induction false} ParenthesesReadAt(v: Value, level: nat, rest: seq<Token>)
    requires 1 <= level <= 13 && Stops(rest, level)
    ensures ReadLevel(level, Parenthesized(true, Print(v)) + rest) == Ok(Meaning(v), rest)
    decreases v, 101 + level
  {
    if level == 1 { ParenthesesRead(v, rest); } else { ParenthesesReadAt(v, level - 1, rest); }
  }

  /** A printed value is read back as its meaning on every level that admits it. */
  lemma {:induction false} ValueReads(v: Value, level: nat, rest: seq<Token>)
    requires 1 <= level <= 13 && Level(v) <= level && Stops(rest, level)
    ensures ReadLevel(level, Print(v) + rest) == Ok(Meaning(v), rest)
    decreases v, 2 * level + 1
  {
    if level == 13 {
      if Level(v) < 13 { ValueReads(v, 12, rest); } else { ConditionalReads(v, rest); }
    } else if level >= 3 {
      OperatorsRead(v, level, rest);
    } else if level == 2 {
      if Level(v) < 2 {
        ValueReads(v, 1, rest);
        PostfixStarts(v, rest);
      } else {
        PrefixReads(v, rest);
      }
    } else {
      PostfixReads(v, rest);
    }
  }

  /** A postfix value does not start with a prefix operator. */
  lemma {:induction false} PostfixStarts(v: Value, rest: seq<Token>)
    requires Level(v) <= 1
    ensures Print(v) != [] && !(Print(v) + rest)[0].TPrefix?
  {
    match v
    case Transparent(x) => PostfixStarts(x, rest);
    case Access(x, _) => if !NeedsParentheses(v, 0, x) { PostfixStarts(x, rest); }
    case Index(x, _) => if !NeedsParentheses(v, 0, x) { PostfixStarts(x, rest); }
    case Call(x, _) => if !NeedsParentheses(v, 0, x) { PostfixStarts(x, rest); }
    case _ =>
  }

  lemma {:induction false} PrefixReads(v: Value, rest: seq<Token>)
    requires Level(v) == 2 && Stops(rest, 2)
    ensures ReadLevel(2, Print(v) + rest) == Ok(Meaning(v), rest)
    decreases v, 1
  {
    match v
    case Transparent(x) => PrefixReads(x, rest);
    case Unary(op, x) =>
      var operand := Parenthesized(NeedsParentheses(v, 0, x), Print(x)) + rest;
      if NeedsParentheses(v, 0, x) { ParenthesesReadAt(x, 2, rest); } else { ValueReads(x, 2, rest); }
      if op.Silent? {
        assert Print(v) + rest == operand;
      } else {
        assert Print(v) + rest == [TPrefix(op)] + operand;
        assert ([TPrefix(op)] + operand)[1..] == operand;
      }
    case Binary(op, _, _) => LevelOfCOperator(op);
  }

  lemma {:induction false} ConditionalReads(v: Value, rest: seq<Token>)
    requires Level(v) == 13 && Stops(rest, 13)
    ensures ReadLevel(13, Print(v) + rest) == Ok(Meaning(v), rest)
    decreases v, 1
  {
    match v
    case Transparent(x) => ConditionalReads(x, rest);
    case Select(_, _, _) => SelectReads(v, rest);
    case Binary(op, _, _) => LevelOfCOperator(op);
  }

  lemma {:induction false} SelectReads(v: Value, rest: seq<Token>)
    requires v.Select? && Stops(rest, 13)
    ensures ReadLevel(13, Print(v) + rest) == Ok(Meaning(v), rest)
    decreases v, 0
  {
    var first, second, third := SelectTokens(v, rest);
    SelectOperandReads(v, 0, v.c, 12, [TQuestion] + second);
    SelectOperandReads(v, 1, v.t, 13, [TColon] + third);
    SelectOperandReads(v, 2, v.f, 13, rest);
    ConditionalStep(first, Meaning(v.c), second, Meaning(v.t), third, Meaning(v.f), rest);
  }

  /** The tokens of a conditional from its three operands onwards. */
  lemma SelectTokens(v: Value, rest: seq<Token>) returns (first: seq<Token>, second: seq<Token>, third: seq<Token>)
    requires v.Select?
    ensures first == Print(v) + rest
    ensures first == Parenthesized(NeedsParentheses(v, 0, v.c), Print(v.c)) + ([TQuestion] + second)
    ensures second == Parenthesized(NeedsParentheses(v, 1, v.t), Print(v.t)) + ([TColon] + third)
    ensures third == Parenthesized(NeedsParentheses(v, 2, v.f), Print(v.f)) + rest
  {
    var pc := Parenthesized(NeedsParentheses(v, 0, v.c), Print(v.c));
    var pt := Parenthesized(NeedsParentheses(v, 1, v.t), Print(v.t));
    var pf := Parenthesized(NeedsParentheses(v, 2, v.f), Print(v.f));
    third := pf + rest;
    second := pt + ([TColon] + third);
    first := pc + ([TQuestion] + second);
    ReassociateThree(pc, [TQuestion], pt, [TColon], pf, rest);
  }

  lemma ReassociateThree(a: seq<Token>, x: seq<Token>, b: seq<Token>, y: seq<Token>, c: seq<Token>, rest: seq<Token>)
    ensures a + (x + b + (y + c)) + rest == a + (x + (b + (y + (c + rest))))
  {
  }

  lemma ConditionalStep(first: seq<Token>, c: CTree, second: seq<Token>, t: CTree, third: seq<Token>, f: CTree,
                        rest: seq<Token>)
    requires ReadLevel(12, first) == Ok(c, [TQuestion] + second)
    requires ReadLevel(13, second) == Ok(t, [TColon] + third)
    requires ReadLevel(13, third) == Ok(f, rest)
    ensures ReadLevel(13, first) == Ok(CTernary(c, t, f), rest)
  {
    assert ([TQuestion] + second)[1..] == second && ([TColon] + third)[1..] == third;
  }

  lemma {:induction false} SelectOperandReads(v: Value, no: nat, x: Value, level: nat, rest: seq<Token>)
    requires v.Select? && 12 <= level <= 13 && Stops(rest, level)
    ensures ReadLevel(level, Parenthesized(NeedsParentheses(v, no, x), Print(x)) + rest) == Ok(Meaning(x), rest)
    decreases x, 200
  {
    if NeedsParentheses(v, no, x) { ParenthesesReadAt(x, level, rest); } else { ValueReads(x, level, rest); }
  }

  /** Printing a value and reading the tokens back gives the expression it means. */
  lemma PrintedValueReadsBack(v: Value)
    ensures ReadLevel(13, Print(v)) == Ok(Meaning(v), [])
  {
    ValueReads(v, 13, []);
    assert Print(v) + [] == Print(v);
  }
}

/** What is read from the pointer arithmetic of the IR: one addend for each operand that the
    additions lead to, the sum of the constants, and the one operand that is a pointer. */
module GepReading {
  import opened Wrappers
  import opened Numbers
  import opened GepArithmetic

  // ----- The operands of an addition -----

  /** A constant, or one behind casts. */
  predicate IsNumber(e: Expr) {
    e.Const? || (e.Cast? && IsNumber(e.of))
  }

  function Number(e: Expr): nat
    requires IsNumber(e)
  {
    if e.Const? then e.c else Number(e.of)
  }

  lemma {:induction false} SkippedIsNumber(e: Expr)
    ensures SkipCasts(e).Const? <==> IsNumber(e)
    ensures IsNumber(e) ==> SkipCasts(e).c == Number(e)
  {
    if e.Cast? { SkippedIsNumber(e.of); }
  }

  /** What the additions and casts of `e` lead to, from left to right. A known pointer is not
      opened, and a constant behind casts stays together. */
  function Operands(types: map<Expr, Type>, e: Expr): seq<Expr> {
    if e in types || IsNumber(e) then [e]
    else
      match e
      case Add(l, r) => Operands(types, l) + Operands(types, r)
      case Cast(of) => Operands(types, of)
      case _ => [e]
  }

  /** Operands that the pass does not reason about: allocas, zero extensions, the constants
      without arithmetic, and negative numbers that no cast hides. */
  predicate IsRefused(types: map<Expr, Type>, x: Expr) {
    x !in types && (x.Barrier? || x.Global? || (x.Const? && x.c >= SignBit))
  }

  /** The operands that are known to be pointers. */
  function Pointers(types: map<Expr, Type>, operands: seq<Expr>): seq<Expr> {
    if operands == [] then []
    else (if operands[0] in types then [operands[0]] else []) + Pointers(types, operands[1..])
  }

  function Constants(types: map<Expr, Type>, operands: seq<Expr>): nat {
    if operands == [] then 0
    else
      var x := operands[0];
      (if x !in types && IsNumber(x) then Number(x) else 0) + Constants(types, operands[1..])
  }

  /** An operand as a multiple of an index: `i << k` steps by two to the power of `k` as long
      as that is a positive number, `i * c` and `c * i` step by `c` unless that is negative,
      and everything else is an index itself. */
  function Stride(x: Expr): Addend {
    match x
    case Shl(i, Const(k)) => if k <= 62 then Addend(Pow2(k), i) else Addend(1, x)
    case Mul(i, Const(c)) => if c < SignBit then Addend(c, i) else Addend(1, x)
    case Mul(Const(c), i) => if c < SignBit then Addend(c, i) else Addend(1, x)
    case _ => Addend(1, x)
  }

  /** The strides of the operands that are neither pointers nor constants. */
  function Strides(types: map<Expr, Type>, operands: seq<Expr>): seq<Addend> {
    if operands == [] then []
    else
      var x := operands[0];
      (if x !in types && !IsNumber(x) then [Stride(x)] else []) + Strides(types, operands[1..])
  }

  lemma {:induction false} PointersOfBoth(types: map<Expr, Type>, xs: seq<Expr>, ys: seq<Expr>)
    ensures Pointers(types, xs + ys) == Pointers(types, xs) + Pointers(types, ys)
    decreases |xs|
  {
    if xs == [] {
      assert xs + ys == ys;
    } else {
      assert (xs + ys)[0] == xs[0] && (xs + ys)[1..] == xs[1..] + ys;
      PointersOfBoth(types, xs[1..], ys);
    }
  }

  lemma {:induction false} ConstantsOfBoth(types: map<Expr, Type>, xs: seq<Expr>, ys: seq<Expr>)
    ensures Constants(types, xs + ys) == Constants(types, xs) + Constants(types, ys)
    decreases |xs|
  {
    if xs == [] {
      assert xs + ys == ys;
    } else {
      assert (xs + ys)[0] == xs[0] && (xs + ys)[1..] == xs[1..] + ys;
      ConstantsOfBoth(types, xs[1..], ys);
    }
  }

  lemma {:induction false} StridesOfBoth(types: map<Expr, Type>, xs: seq<Expr>, ys: seq<Expr>)
    ensures Strides(types, xs + ys) == Strides(types, xs) + Strides(types, ys)
    decreases |xs|
  {
    if xs == [] {
      assert xs + ys == ys;
    } else {
      assert (xs + ys)[0] == xs[0] && (xs + ys)[1..] == xs[1..] + ys;
      StridesOfBoth(types, xs[1..], ys);
    }
  }

  // ----- Reading -----

  predicate Refuses(types: map<Expr, Type>, operands: seq<Expr>) {
    exists x :: x in operands && IsRefused(types, x)
  }

  /** Operands that step by a constant instead of an index, such as a product of constants. */
  predicate LacksIndex(types: map<Expr, Type>, x: Expr) {
    x !in types && !IsNumber(x) && !IsRefused(types, x) && (Stride(x).index.Const? || Stride(x).index.Global?)
  }

  predicate LackIndex(types: map<Expr, Type>, operands: seq<Expr>) {
    exists x :: x in operands && LacksIndex(types, x)
  }

  /** The base is the pointer among the operands, if there is one. */
  predicate ReadsBase(types: map<Expr, Type>, pointers: seq<Expr>, base: Option<Base>) {
    match base
    case None => pointers == []
    case Some(b) => pointers == [b.address] && b.address in types && b.pointee == types[b.address]
  }

  /** The addends are the strides of the operands, and the constant is the sum of theirs. */
  predicate ReadsSum(strides: seq<Addend>, constants: nat, sum: Summation) {
    multiset(sum.indices) == multiset(strides) && sum.constant == Wrap(constants)
  }

  /** An assertion fails on an operand without an index, and otherwise only if the constants
      exceed what a pointer may be moved by. Apart from that, the pass gives up exactly on a
      refused operand or on two pointers, and reads the base and the summation off the operands
      in all other cases. */
  predicate Reads(types: map<Expr, Type>, operands: seq<Expr>, p: Parsed) {
    ReadsParts(types, LackIndex(types, operands), Refuses(types, operands), Pointers(types, operands),
               Strides(types, operands), Constants(types, operands), p)
  }

  predicate ReadsParts(types: map<Expr, Type>, lacks: bool, refuses: bool, pointers: seq<Expr>, strides: seq<Addend>,
                       constants: nat, p: Parsed)
  {
    match p
    case Aborts => lacks || constants >= SignBit
    case Bails => !lacks && (refuses || |pointers| > 1)
    case Parses(a) => !lacks && !refuses && ReadsBase(types, pointers, a.base) && ReadsSum(strides, constants, a.sum)
  }

  lemma {:induction false} SortPermutes(s: seq<Addend>)
    ensures multiset(Sort(s)) == multiset(s)
  {
    if s != [] {
      SortPermutes(s[1..]);
      InsertPermutes(s[0], Sort(s[1..]));
      assert s == [s[0]] + s[1..];
    }
  }

  lemma {:induction false} PlusReads(a: Summation, b: Summation)
    requires Plus(a, b).Some?
    ensures multiset(Plus(a, b).value.indices) == multiset(a.indices) + multiset(b.indices)
    ensures Plus(a, b).value.constant == Wrap(a.constant + b.constant)
  {
    SortPermutes(a.indices + b.indices);
  }

  lemma {:induction false} SumReadsPlus(strides: seq<Addend>, constants: nat, a: Summation, strides': seq<Addend>,
                                        constants': nat, b: Summation, sum: Summation)
    requires ReadsSum(strides, constants, a) && ReadsSum(strides', constants', b)
    requires Plus(a, b) == Some(sum) || Plus(b, a) == Some(sum)
    ensures ReadsSum(strides + strides', constants + constants', sum)
  {
    WrapAdd(constants, constants');
    if Plus(a, b) == Some(sum) { PlusReads(a, b); } else { PlusReads(b, a); }
  }

  lemma {:induction false} Faults(types: map<Expr, Type>, xs: seq<Expr>, ys: seq<Expr>)
    ensures Refuses(types, xs + ys) <==> Refuses(types, xs) || Refuses(types, ys)
    ensures LackIndex(types, xs + ys) <==> LackIndex(types, xs) || LackIndex(types, ys)
  {
    if x :| x in xs && IsRefused(types, x) { assert x in xs + ys; }
    if y :| y in ys && IsRefused(types, y) { assert y in xs + ys; }
    if x :| x in xs && LacksIndex(types, x) { assert x in xs + ys; }
    if y :| y in ys && LacksIndex(types, y) { assert y in xs + ys; }
  }

  lemma {:induction false} BasesRead(types: map<Expr, Type>, xs: seq<Expr>, ys: seq<Expr>, x: Arithmetic,
                                     y: Arithmetic)
    requires ReadsBase(types, xs, x.base) && ReadsBase(types, ys, y.base)
    ensures x.base.Some? && y.base.Some? <==> |xs + ys| > 1
    ensures x.base.None? || y.base.None? ==>
              ReadsBase(types, xs + ys, if x.base.Some? then x.base else y.base)
  {
    if x.base.None? { assert xs + ys == ys; } else if y.base.None? { assert xs + ys == xs; }
  }

  lemma SumCases(x: Arithmetic, y: Arithmetic)
    ensures var p := ParseSum(Parses(x), Parses(y));
            && (p.Aborts? ==> Wrap(x.sum.constant + y.sum.constant) >= SignBit)
            && (p.Bails? <==> x.base.Some? && y.base.Some?)
            && (p.Parses? ==> (&& p.a.base == (if x.base.Some? then x.base else y.base)
                               && (Plus(x.sum, y.sum) == Some(p.a.sum) || Plus(y.sum, x.sum) == Some(p.a.sum))))
  {
  }

  lemma LargeSum(c: nat, d: nat)
    ensures Wrap(Wrap(c) + Wrap(d)) == Wrap(Wrap(d) + Wrap(c)) <= c + d
  {
    WrapAdd(c, d);
  }

  lemma {:induction false} SumCombines(types: map<Expr, Type>, k: bool, u: bool, ps: seq<Expr>, ss: seq<Addend>,
                                       c: nat, x: Parsed, l: bool, v: bool, qs: seq<Expr>, ts: seq<Addend>, d: nat,
                                       y: Parsed)
    requires ReadsParts(types, k, u, ps, ss, c, x) && ReadsParts(types, l, v, qs, ts, d, y)
    ensures ReadsParts(types, k || l, u || v, ps + qs, ss + ts, c + d, ParseSum(x, y))
  {
    if x.Parses? && y.Parses? {
      SumCases(x.a, y.a);
      BasesRead(types, ps, qs, x.a, y.a);
      var p := ParseSum(x, y);
      if p.Parses? { SumReadsPlus(ss, c, x.a.sum, ts, d, y.a.sum, p.a.sum); }
      if p.Aborts? { LargeSum(c, d); }
    }
  }

  lemma {:induction false} PartsOfBoth(types: map<Expr, Type>, xs: seq<Expr>, ys: seq<Expr>, p: Parsed)
    ensures Reads(types, xs + ys, p)
       <==> ReadsParts(types, LackIndex(types, xs) || LackIndex(types, ys), Refuses(types, xs) || Refuses(types, ys),
                       Pointers(types, xs) + Pointers(types, ys), Strides(types, xs) + Strides(types, ys),
                       Constants(types, xs) + Constants(types, ys), p)
  {
    PointersOfBoth(types, xs, ys);
    ConstantsOfBoth(types, xs, ys);
    StridesOfBoth(types, xs, ys);
    Faults(types, xs, ys);
  }

  lemma {:induction false} SumReads(types: map<Expr, Type>, xs: seq<Expr>, ys: seq<Expr>, x: Parsed, y: Parsed)
    requires Reads(types, xs, x) && Reads(types, ys, y)
    ensures Reads(types, xs + ys, ParseSum(x, y))
  {
    PartsOfBoth(types, xs, ys, ParseSum(x, y));
    SumCombines(types, LackIndex(types, xs), Refuses(types, xs), Pointers(types, xs), Strides(types, xs),
                Constants(types, xs), x,
                LackIndex(types, ys), Refuses(types, ys), Pointers(types, ys), Strides(types, ys),
                Constants(types, ys), y);
  }

  lemma {:induction false} OneOperand(types: map<Expr, Type>, e: Expr)
    ensures Refuses(types, [e]) <==> IsRefused(types, e)
    ensures LackIndex(types, [e]) <==> LacksIndex(types, e)
    ensures Pointers(types, [e]) == if e in types then [e] else []
    ensures Constants(types, [e]) == if e !in types && IsNumber(e) then Number(e) else 0
    ensures Strides(types, [e]) == if e !in types && !IsNumber(e) then [Stride(e)] else []
  {
    assert e in [e] && [e][1..] == [];
    assert Pointers(types, []) == [] && Strides(types, []) == [] && Constants(types, []) == 0;
  }

  lemma {:induction false} IndexReads(types: map<Expr, Type>, e: Expr, coefficient: nat, index: Expr)
    requires e !in types && !IsNumber(e) && !IsRefused(types, e) && Stride(e) == Addend(coefficient, index)
    ensures Reads(types, [e], Index(coefficient, index))
  {
    OneOperand(types, e);
  }

  lemma {:induction false} StrideParses(types: map<Expr, Type>, e: Expr)
    requires !e.Add? && !e.Cast? && e !in types && !IsNumber(e) && !IsRefused(types, e)
    ensures Parse(types, e) == Index(Stride(e).coefficient, Stride(e).index)
  {
  }

  lemma {:induction false} OperandReads(types: map<Expr, Type>, e: Expr)
    requires e in types || IsNumber(e) || (!e.Add? && !e.Cast?)
    ensures Reads(types, [e], Parse(types, e))
  {
    if e in types || IsNumber(e) || IsRefused(types, e) {
      OneOperand(types, e);
      SkippedIsNumber(e);
    } else {
      StrideParses(types, e);
      IndexReads(types, e, Stride(e).coefficient, Stride(e).index);
    }
  }

  /** Every addition is opened down to its operands, and every operand is read as what it
      is. */
  lemma {:induction false} ParseReads(types: map<Expr, Type>, e: Expr)
    ensures Reads(types, Operands(types, e), Parse(types, e))
  {
    SkippedIsNumber(e);
    if !(e in types || IsNumber(e)) && e.Add? {
      ParseReads(types, e.l);
      ParseReads(types, e.r);
      SumReads(types, Operands(types, e.l), Operands(types, e.r), Parse(types, e.l), Parse(types, e.r));
    } else if !(e in types || IsNumber(e)) && e.Cast? {
      ParseReads(types, e.of);
    } else {
      OperandReads(types, e);
    }
  }
}

/** Reading the pointer arithmetic of the IR as a base address plus a constant plus
    a summation of constant multiples of indices, at a width of 64 bits. */
module GepArithmetic {
  import opened Wrappers
  import opened Numbers

  // ----- Modular arithmetic -----

  const Modulus: nat := 0x1_0000_0000_0000_0000
  const SignBit: nat := 0x8000_0000_0000_0000

  function Wrap(x: int): (r: nat)
    ensures r < Modulus
  {
    x % 0x1_0000_0000_0000_0000
  }

  lemma WrapAdd(x: int, y: int)
    ensures Wrap(Wrap(x) + Wrap(y)) == Wrap(x + y) == Wrap(Wrap(x) + y) == Wrap(x + Wrap(y))
  {
  }

  lemma WrapMul(x: int, y: int)
    ensures Wrap(Wrap(x) * y) == Wrap(x * y)
  {
    var q := x / Modulus;
    assert x == Wrap(x) + q * Modulus;
    MulSplit(Wrap(x), q, y);
    WrapShift(Wrap(x) * y, q * y);
  }

  lemma MulSplit(a: int, q: int, y: int)
    ensures (a + q * Modulus) * y == a * y + (q * y) * Modulus
  {
  }

  lemma WrapShift(x: int, k: int)
    ensures Wrap(x + k * Modulus) == Wrap(x)
  {
  }

  lemma {:induction false} Pow2Doubles(k: nat, m: nat, x: nat)
    requires Pow2(k) == x && m == k + k
    ensures Pow2(m) == x * x
  {
    Pow2Add(k, k);
  }

  lemma {:induction false} LargestStride()
    ensures Pow2(62) == 0x4000_0000_0000_0000
  {
    assert Pow2(7) == 0x80;
    Pow2Doubles(7, 14, 0x80);
    assert Pow2(15) == 2 * Pow2(14);
    Pow2Doubles(15, 30, 0x8000);
    assert Pow2(31) == 2 * Pow2(30);
    Pow2Doubles(31, 62, 0x8000_0000);
  }

  /** A shift below 63 has a stride below the sign bit. */
  lemma {:induction false} StrideFits(k: nat)
    requires k < 63
    ensures Pow2(k) < SignBit
  {
    LargestStride();
    Pow2Grows(k, 62);
  }

  // ----- Types of the model -----

  datatype Field = Field(offset: nat, of: Type)

  /** `Alias` stands for a typedef or a `const`; pointers, primitives and enums are
      scalars. */
  datatype Type =
    | Scalar(tag: nat, size: nat)
    | Array(element: Type, count: nat)
    | Struct(tag: nat, size: nat, fields: seq<Field>)
    | Union(tag: nat, members: seq<Type>)
    | Alias(tag: nat, of: Type)

  function Unalias(t: Type): (r: Type)
    ensures !r.Alias?
    ensures r == t || r < t
  {
    if t.Alias? then Unalias(t.of) else t
  }

  function Size(t: Type): nat {
    match t
    case Scalar(_, size) => size
    case Array(element, count) => Size(element) * count
    case Struct(_, size, _) => size
    case Union(_, members) => LargestSize(members)
    case Alias(_, of) => Size(of)
  }

  function LargestSize(members: seq<Type>): nat {
    if members == [] then 0
    else
      var rest := LargestSize(members[1..]);
      if Size(members[0]) > rest then Size(members[0]) else rest
  }

  /** What the verification of the model guarantees. */
  predicate ValidType(t: Type) {
    match t
    case Scalar(_, size) => size > 0
    case Array(element, count) => count > 0 && ValidType(element)
    case Struct(_, size, fields) =>
      && size > 0
      && (forall i :: 0 <= i < |fields| ==> ValidType(fields[i].of))
      && (forall i, j :: 0 <= i < j < |fields| ==> fields[i].offset < fields[j].offset)
    case Union(_, members) => 0 < |members| < SignBit && forall i :: 0 <= i < |members| ==> ValidType(members[i])
    case Alias(_, of) => ValidType(of)
  }

  lemma {:induction false} ValidIsSized(t: Type)
    requires ValidType(t)
    ensures Size(t) > 0
  {
    match t
    case Array(element, count) => ValidIsSized(element);
    case Union(_, members) => ValidIsSized(members[0]);
    case Alias(_, of) => ValidIsSized(of);
    case _ =>
  }

  lemma {:induction false} UnaliasKeeps(t: Type)
    requires ValidType(t)
    ensures ValidType(Unalias(t)) && Size(Unalias(t)) == Size(t)
  {
    if t.Alias? { UnaliasKeeps(t.of); }
  }

  // ----- Expressions of the IR -----

  /** `Opaque` stands for arguments and for the instructions that no pointer
      arithmetic goes through; `Barrier` for an alloca or a zero extension, and
      `Global` for the constants, that have no arithmetic at all. `ModelGep` is the
      call that the pass inserts. */
  datatype Expr =
    | Const(c: nat)
    | Opaque(id: nat)
    | Barrier(id: nat)
    | Global(id: nat)
    | Cast(of: Expr)
    | Add(l: Expr, r: Expr)
    | Mul(l: Expr, r: Expr)
    | Shl(of: Expr, amount: Expr)
    | ModelGep(base: Type, address: Expr, args: seq<Expr>)

  type Env = nat -> nat

  function Eval(env: Env, e: Expr): (v: nat)
    ensures v < Modulus
  {
    match e
    case Const(c) => Wrap(c)
    case Opaque(id) => Wrap(env(id))
    case Barrier(id) => Wrap(env(id))
    case Global(id) => Wrap(env(id))
    case Cast(of) => Eval(env, of)
    case Add(l, r) => Wrap(Eval(env, l) + Eval(env, r))
    case Mul(l, r) => Wrap(Eval(env, l) * Eval(env, r))
    case Shl(of, amount) => Wrap(Eval(env, of) * Pow2(Eval(env, amount)))
    case ModelGep(base, address, args) =>
      if args == [] then Eval(env, address)
      else Wrap(Eval(env, address) + Eval(env, args[0]) * Size(base) + GepOffset(env, base, args[1..]))
  }

  /** The offset of the part of `t` that the arguments of a call to ModelGEP select:
      an element of an array, the field of a struct at an offset, a member of a
      union. */
  function GepOffset(env: Env, t: Type, args: seq<Expr>): int
    decreases args
  {
    if args == [] then 0
    else
      match Unalias(t)
      case Array(element, _) => Eval(env, args[0]) * Size(element) + GepOffset(env, element, args[1..])
      case Struct(_, _, fields) =>
        var f := FieldAt(fields, Eval(env, args[0]));
        if f.Some? then f.value.offset + GepOffset(env, f.value.of, args[1..]) else 0
      case Union(_, members) =>
        var k := Eval(env, args[0]);
        if k < |members| then GepOffset(env, members[k], args[1..]) else 0
      case _ => 0
  }

  function FieldAt(fields: seq<Field>, offset: nat): (r: Option<Field>)
    ensures r.Some? ==> r.value in fields && r.value.offset == offset
  {
    if fields == [] then None
    else if fields[0].offset == offset then Some(fields[0])
    else FieldAt(fields[1..], offset)
  }

  lemma {:induction false} FieldAtIts(fields: seq<Field>, i: nat)
    requires i < |fields| && forall i, j :: 0 <= i < j < |fields| ==> fields[i].offset < fields[j].offset
    ensures FieldAt(fields, fields[i].offset) == Some(fields[i])
  {
    if i > 0 { FieldAtIts(fields[1..], i - 1); }
  }

  // ----- Summations -----

  datatype Addend = Addend(coefficient: nat, index: Expr)

  datatype Summation = Summation(constant: nat, indices: seq<Addend>)

  const Zero := Summation(0, [])

  predicate IsZero(s: Summation) {
    s.indices == [] && s.constant == 0
  }

  /** `isValid`: coefficients are not negative and do not grow. */
  predicate Descending(s: seq<Addend>) {
    && (forall i :: 0 <= i < |s| ==> s[i].coefficient < SignBit)
    && (forall i, j :: 0 <= i < j < |s| ==> s[i].coefficient >= s[j].coefficient)
  }

  /** An index is never a constant. */
  predicate IsIndex(e: Expr) {
    !e.Const? && !e.Global?
  }

  predicate ValidSum(s: Summation) {
    s.constant < Modulus && Descending(s.indices) && forall i :: 0 <= i < |s.indices| ==> IsIndex(s.indices[i].index)
  }

  function AddendsValue(env: Env, s: seq<Addend>): int {
    if s == [] then 0 else s[0].coefficient * Eval(env, s[0].index) + AddendsValue(env, s[1..])
  }

  function SumValue(env: Env, s: Summation): int {
    s.constant + AddendsValue(env, s.indices)
  }

  lemma {:induction false} AddendsAppend(env: Env, s: seq<Addend>, t: seq<Addend>)
    ensures AddendsValue(env, s + t) == AddendsValue(env, s) + AddendsValue(env, t)
    decreases |s|
  {
    if s == [] {
      assert s + t == t;
    } else {
      assert (s + t)[0] == s[0] && (s + t)[1..] == s[1..] + t;
      AddendsAppend(env, s[1..], t);
    }
  }

  function Insert(x: Addend, s: seq<Addend>): seq<Addend> {
    if s == [] || x.coefficient >= s[0].coefficient then [x] + s else [s[0]] + Insert(x, s[1..])
  }

  function Sort(s: seq<Addend>): seq<Addend> {
    if s == [] then [] else Insert(s[0], Sort(s[1..]))
  }

  lemma {:induction false} InsertSorts(x: Addend, s: seq<Addend>)
    requires Descending(s) && x.coefficient < SignBit
    ensures Descending(Insert(x, s))
    ensures forall a :: a in Insert(x, s) <==> a == x || a in s
  {
    if !(s == [] || x.coefficient >= s[0].coefficient) {
      InsertSorts(x, s[1..]);
      Prepend(s[0], Insert(x, s[1..]));
    }
  }

  lemma Prepend(x: Addend, s: seq<Addend>)
    requires Descending(s) && x.coefficient < SignBit && forall a :: a in s ==> a.coefficient <= x.coefficient
    ensures Descending([x] + s)
  {
    var t := [x] + s;
    forall i | 0 <= i < |t| ensures t[i].coefficient < SignBit {
      if i > 0 { assert t[i] == s[i - 1]; }
    }
    forall i, j | 0 <= i < j < |t| ensures t[i].coefficient >= t[j].coefficient {
      assert t[j] == s[j - 1] && t[j] in s;
      if i > 0 { assert t[i] == s[i - 1]; }
    }
  }

  lemma {:induction false} InsertKeepsValue(env: Env, x: Addend, s: seq<Addend>)
    ensures AddendsValue(env, Insert(x, s)) == x.coefficient * Eval(env, x.index) + AddendsValue(env, s)
  {
    if !(s == [] || x.coefficient >= s[0].coefficient) { InsertKeepsValue(env, x, s[1..]); }
  }

  lemma {:induction false} InsertPermutes(x: Addend, s: seq<Addend>)
    ensures multiset(Insert(x, s)) == multiset([x]) + multiset(s)
  {
    if !(s == [] || x.coefficient >= s[0].coefficient) {
      InsertPermutes(x, s[1..]);
      assert s == [s[0]] + s[1..];
    }
  }

  lemma {:induction false} SortSorts(s: seq<Addend>)
    requires forall i :: 0 <= i < |s| ==> s[i].coefficient < SignBit
    ensures Descending(Sort(s)) && multiset(Sort(s)) == multiset(s)
  {
    if s != [] {
      SortSorts(s[1..]);
      InsertSorts(s[0], Sort(s[1..]));
      InsertPermutes(s[0], Sort(s[1..]));
      assert s == [s[0]] + s[1..];
    }
  }

  lemma {:induction false} SortKeepsValue(env: Env, s: seq<Addend>)
    ensures AddendsValue(env, Sort(s)) == AddendsValue(env, s)
  {
    if s != [] {
      SortKeepsValue(env, s[1..]);
      InsertKeepsValue(env, s[0], Sort(s[1..]));
    }
  }

  /** The sum of two summations; `None` where the sign assertion aborts. */
  function Plus(a: Summation, b: Summation): Option<Summation> {
    var constant := Wrap(a.constant + b.constant);
    if constant >= SignBit then None else Some(Summation(constant, Sort(a.indices + b.indices)))
  }

  lemma PlusIsValid(a: Summation, b: Summation)
    requires ValidSum(a) && ValidSum(b) && Plus(a, b).Some?
    ensures ValidSum(Plus(a, b).value)
  {
    var all := a.indices + b.indices;
    SortSorts(all);
    forall i | 0 <= i < |Sort(all)| ensures IsIndex(Sort(all)[i].index) {
      assert Sort(all)[i] in multiset(all);
    }
  }

  lemma PlusAdds(env: Env, a: Summation, b: Summation)
    requires Plus(a, b).Some?
    ensures Wrap(SumValue(env, Plus(a, b).value)) == Wrap(SumValue(env, a) + SumValue(env, b))
    ensures a.constant + b.constant < Modulus ==> SumValue(env, Plus(a, b).value) == SumValue(env, a) + SumValue(env, b)
  {
    var all := a.indices + b.indices;
    SortKeepsValue(env, all);
    AddendsAppend(env, a.indices, b.indices);
    WrapAdd(a.constant + b.constant, AddendsValue(env, all));
    WrapOfSmall(a.constant + b.constant);
  }

  lemma WrapOfSmall(x: nat)
    ensures x < Modulus ==> Wrap(x) == x
  {
  }

  // ----- Parsing -----

  datatype Base = Base(pointee: Type, address: Expr)

  datatype Arithmetic = Arithmetic(base: Option<Base>, sum: Summation)

  /** `Bails` where the pass gives up on a use, `Aborts` where an assertion fails. */
  datatype Parsed = Bails | Aborts | Parses(a: Arithmetic)

  function Index(coefficient: nat, index: Expr): Parsed {
    if IsIndex(index) then Parses(Arithmetic(None, Summation(0, [Addend(coefficient, index)]))) else Aborts
  }

  function Unknown(e: Expr): Parsed {
    Index(1, e)
  }

  function SkipCasts(e: Expr): Expr {
    if e.Cast? then SkipCasts(e.of) else e
  }

  /** `types` holds the values that are known to be pointers, with their pointees. */
  function Parse(types: map<Expr, Type>, e: Expr): Parsed {
    if e in types then Parses(Arithmetic(Some(Base(types[e], e)), Zero))
    else
      match e
      case Const(c) => if c < SignBit then Parses(Arithmetic(None, Summation(c, []))) else Bails
      case Opaque(_) => Unknown(e)
      case Barrier(_) => Bails
      case Global(_) => Bails
      case Cast(of) =>
        var inner := SkipCasts(of);
        if inner.Const? then Parses(Arithmetic(None, Summation(Wrap(inner.c), []))) else Parse(types, of)
      case Add(l, r) => ParseSum(Parse(types, l), Parse(types, r))
      case Mul(l, r) =>
        var constant, other := if r.Const? then r else l, if r.Const? then l else r;
        if constant.Const? && constant.c < SignBit then Index(constant.c, other) else Unknown(e)
      case Shl(of, amount) => if amount.Const? && amount.c < 63 then Index(Pow2(amount.c), of) else Unknown(e)
      case ModelGep(_, _, _) => Unknown(e)
  }

  function ParseSum(l: Parsed, r: Parsed): Parsed {
    if l.Aborts? || r.Aborts? then Aborts
    else if l.Bails? || r.Bails? then Bails
    else if l.a.base.Some? && r.a.base.Some? then Bails
    else
      var s := if l.a.base.Some? then Plus(l.a.sum, r.a.sum) else Plus(r.a.sum, l.a.sum);
      if s.None? then Aborts
      else Parses(Arithmetic(if l.a.base.Some? then l.a.base else r.a.base, s.value))
  }

  function BaseValue(env: Env, b: Option<Base>): nat {
    if b.Some? then Eval(env, b.value.address) else 0
  }

  function Value(env: Env, a: Arithmetic): int {
    BaseValue(env, a.base) + SumValue(env, a.sum)
  }

  predicate ParsedWell(types: map<Expr, Type>, a: Arithmetic) {
    ValidSum(a.sum)
    && (a.base.Some? ==> a.sum.constant < SignBit)
    && (a.base.Some? ==> a.base.value.address in types && types[a.base.value.address] == a.base.value.pointee)
  }

  lemma {:induction false} SkipCastsEval(env: Env, e: Expr)
    ensures Eval(env, SkipCasts(e)) == Eval(env, e)
  {
    if e.Cast? { SkipCastsEval(env, e.of); }
  }

  lemma IndexSound(types: map<Expr, Type>, env: Env, c: nat, index: Expr)
    requires Index(c, index).Parses? && c < SignBit
    ensures var a := Index(c, index).a;
            ParsedWell(types, a) && a.base.None? && SumValue(env, a.sum) == c * Eval(env, index)
  {
    var s := [Addend(c, index)];
    assert AddendsValue(env, s[1..]) == 0;
  }

  lemma CombineSound(types: map<Expr, Type>, env: Env, a: Arithmetic, b: Arithmetic)
    requires ParsedWell(types, a) && ParsedWell(types, b) && b.base.None? && Plus(a.sum, b.sum).Some?
    ensures var s := Plus(a.sum, b.sum).value;
            && ParsedWell(types, Arithmetic(a.base, s))
            && Wrap(Value(env, Arithmetic(a.base, s)))
            == Wrap(Wrap(Value(env, a)) + Wrap(SumValue(env, b.sum)))
  {
    var x, p, q := BaseValue(env, a.base), SumValue(env, a.sum), SumValue(env, b.sum);
    PlusIsValid(a.sum, b.sum);
    PlusAdds(env, a.sum, b.sum);
    WrapAdd(x + p, q);
    WrapAdd(x, p + q);
    WrapAdd(x, SumValue(env, Plus(a.sum, b.sum).value));
  }

  lemma SumSound(types: map<Expr, Type>, env: Env, l: Parsed, r: Parsed)
    requires ParseSum(l, r).Parses?
    requires l.Parses? ==> ParsedWell(types, l.a)
    requires r.Parses? ==> ParsedWell(types, r.a)
    ensures l.Parses? && r.Parses?
    ensures var a := ParseSum(l, r).a;
            && ParsedWell(types, a)
            && Wrap(Value(env, a))
            == Wrap(Wrap(Value(env, l.a)) + Wrap(Value(env, r.a)))
  {
    if l.a.base.Some? { CombineSound(types, env, l.a, r.a); } else { CombineSound(types, env, r.a, l.a); }
  }

  ghost predicate Sound(types: map<Expr, Type>, env: Env, e: Expr, a: Arithmetic) {
    ParsedWell(types, a) && Eval(env, e) == Wrap(Value(env, a))
  }

  lemma ScaledSound(types: map<Expr, Type>, env: Env, e: Expr, c: nat, index: Expr)
    requires Index(c, index).Parses? && c < SignBit && Eval(env, e) == Wrap(c * Eval(env, index))
    ensures Sound(types, env, e, Index(c, index).a)
  {
    IndexSound(types, env, c, index);
  }

  lemma Commutes(x: int, y: int)
    ensures x * y == y * x
  {
  }

  lemma {:induction false} WrapCommutes(x: int, y: int)
    ensures Wrap(x * y) == Wrap(y * x)
  {
    Commutes(x, y);
  }

  lemma {:induction false} ConstEval(env: Env, e: Expr)
    requires e.Const? && e.c < Modulus
    ensures Eval(env, e) == e.c
  {
  }

  lemma {:induction false} MulEval(env: Env, l: Expr, r: Expr)
    ensures Eval(env, Mul(l, r)) == Wrap(Eval(env, l) * Eval(env, r)) == Wrap(Eval(env, r) * Eval(env, l))
  {
    WrapCommutes(Eval(env, l), Eval(env, r));
  }

  lemma {:induction false} UnknownSound(types: map<Expr, Type>, env: Env, e: Expr)
    requires Unknown(e).Parses?
    ensures Sound(types, env, e, Unknown(e).a)
  {
    ScaledSound(types, env, e, 1, e);
  }

  lemma {:induction false} ProductSound(types: map<Expr, Type>, env: Env, l: Expr, r: Expr)
    requires Mul(l, r) !in types && Parse(types, Mul(l, r)).Parses?
    ensures Sound(types, env, Mul(l, r), Parse(types, Mul(l, r)).a)
  {
    MulEval(env, l, r);
    if r.Const? && r.c < SignBit {
      ConstEval(env, r);
      ScaledSound(types, env, Mul(l, r), r.c, l);
    } else if !r.Const? && l.Const? && l.c < SignBit {
      ConstEval(env, l);
      ScaledSound(types, env, Mul(l, r), l.c, r);
    } else {
      UnknownSound(types, env, Mul(l, r));
    }
  }

  lemma {:induction false} ShlEval(env: Env, of: Expr, amount: Expr)
    requires amount.Const? && amount.c < 63
    ensures Eval(env, Shl(of, amount)) == Wrap(Pow2(amount.c) * Eval(env, of))
  {
    ConstEval(env, amount);
    WrapCommutes(Eval(env, of), Pow2(amount.c));
  }

  lemma ShiftSound(types: map<Expr, Type>, env: Env, of: Expr, amount: Expr)
    requires Shl(of, amount) !in types && Parse(types, Shl(of, amount)).Parses?
    ensures Sound(types, env, Shl(of, amount), Parse(types, Shl(of, amount)).a)
  {
    if amount.Const? && amount.c < 63 {
      StrideFits(amount.c);
      ShlEval(env, of, amount);
      ScaledSound(types, env, Shl(of, amount), Pow2(amount.c), of);
    } else {
      UnknownSound(types, env, Shl(of, amount));
    }
  }

  lemma AdditionSound(types: map<Expr, Type>, env: Env, l: Expr, r: Expr, x: Parsed, y: Parsed)
    requires ParseSum(x, y).Parses?
    requires x.Parses? ==> Sound(types, env, l, x.a)
    requires y.Parses? ==> Sound(types, env, r, y.a)
    ensures Sound(types, env, Add(l, r), ParseSum(x, y).a)
  {
    SumSound(types, env, x, y);
    Combined(types, env, l, r, x.a, y.a, ParseSum(x, y).a);
  }

  lemma Combined(types: map<Expr, Type>, env: Env, l: Expr, r: Expr, a: Arithmetic, b: Arithmetic, c: Arithmetic)
    requires Sound(types, env, l, a) && Sound(types, env, r, b) && ParsedWell(types, c)
    requires Wrap(Value(env, c)) == Wrap(Wrap(Value(env, a)) + Wrap(Value(env, b)))
    ensures Sound(types, env, Add(l, r), c)
  {
    AddEval(env, l, r, Wrap(Value(env, a)), Wrap(Value(env, b)), Value(env, c));
  }

  lemma AddEval(env: Env, l: Expr, r: Expr, x: int, y: int, z: int)
    requires Eval(env, l) == x && Eval(env, r) == y && Wrap(z) == Wrap(x + y)
    ensures Eval(env, Add(l, r)) == Wrap(z)
  {
  }

  lemma LeafSound(types: map<Expr, Type>, env: Env, e: Expr)
    requires Parse(types, e).Parses? && (e in types || (!e.Cast? && !e.Add? && !e.Mul? && !e.Shl?))
    ensures Sound(types, env, e, Parse(types, e).a)
  {
    if e !in types && (e.Opaque? || e.ModelGep?) { ScaledSound(types, env, e, 1, e); }
  }

  /** The parsed arithmetic has the value of the expression, for every value of its
      indices. */
  lemma {:induction false} ParseSound(types: map<Expr, Type>, env: Env, e: Expr)
    requires Parse(types, e).Parses?
    ensures Sound(types, env, e, Parse(types, e).a)
  {
    if e in types {
      LeafSound(types, env, e);
    } else {
      match e
      case Cast(of) =>
        SkipCastsEval(env, of);
        if !SkipCasts(of).Const? { ParseSound(types, env, of); }
      case Add(l, r) =>
        var x, y := Parse(types, l), Parse(types, r);
        if x.Parses? { ParseSound(types, env, l); }
        if y.Parses? { ParseSound(types, env, r); }
        AdditionSound(types, env, l, r, x, y);
      case Mul(l, r) => ProductSound(types, env, l, r);
      case Shl(of, amount) => ShiftSound(types, env, of, amount);
      case _ => LeafSound(types, env, e);
    }
  }
}

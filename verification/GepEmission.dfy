/** Replacing a use of pointer arithmetic by a call to ModelGEP plus the arithmetic
    that the types do not explain. */
module GepEmission {
  import opened Wrappers
  import opened GepArithmetic
  import opened GepSearch
  import opened GepFinding
  import opened Numbers

  /** The longest array that a bare pointer is read as. */
  const MaxArrayLength: nat := 0xFFFF_FFFF

  lemma AddWraps(env: Env, l: Expr, r: Expr, x: int, y: int)
    requires Eval(env, l) == Wrap(x) && Eval(env, r) == Wrap(y)
    ensures Eval(env, Add(l, r)) == Wrap(x + y)
  {
    WrapAdd(x, y);
  }

  lemma ScaledEval(env: Env, c: nat, index: Expr)
    requires c < Modulus
    ensures Eval(env, Mul(Const(c), index)) == Wrap(c * Eval(env, index)) == Eval(env, Mul(index, Const(c)))
  {
    ConstEval(env, Const(c));
    MulEval(env, Const(c), index);
    MulEval(env, index, Const(c));
  }

  /** The value of the addends before position `i` and that of one more. */
  lemma OneMore(env: Env, s: seq<Addend>, i: nat)
    requires i < |s|
    ensures AddendsValue(env, s[..i + 1]) == AddendsValue(env, s[..i]) + s[i].coefficient * Eval(env, s[i].index)
  {
    assert s[..i + 1] == s[..i] + [s[i]];
    AddendsAppend(env, s[..i], [s[i]]);
    assert AddendsValue(env, [s[i]][1..]) == 0;
  }

  ghost predicate Computes(e: Expr, constant: nat, s: seq<Addend>) {
    forall env: Env :: Eval(env, e) == Wrap(constant + AddendsValue(env, s))
  }

  lemma {:induction false} NextAddend(addend: Expr, value: Option<Expr>, constant: nat, s: seq<Addend>, i: nat)
    requires i < |s| && s[i].coefficient < Modulus
    requires addend == if s[i].coefficient != 1 then Mul(Const(s[i].coefficient), s[i].index) else s[i].index
    requires if value.Some? then Computes(value.value, constant, s[..i]) else i == 0 && constant == 0
    ensures Computes(if value.Some? then Add(addend, value.value) else addend, constant, s[..i + 1])
  {
    var r := if value.Some? then Add(addend, value.value) else addend;
    forall env: Env ensures Eval(env, r) == Wrap(constant + AddendsValue(env, s[..i + 1])) {
      AddendEval(env, addend, s[i]);
      OneMore(env, s, i);
      if value.Some? {
        AddWraps(env, addend, value.value, s[i].coefficient * Eval(env, s[i].index),
                 constant + AddendsValue(env, s[..i]));
      }
    }
  }

  lemma {:induction false} AddendEval(env: Env, e: Expr, a: Addend)
    requires a.coefficient < Modulus
    requires e == if a.coefficient != 1 then Mul(Const(a.coefficient), a.index) else a.index
    ensures Eval(env, e) == Wrap(a.coefficient * Eval(env, a.index))
  {
    if a.coefficient != 1 {
      ScaledEval(env, a.coefficient, a.index);
    } else {
      WrapOfSmall(Eval(env, a.index));
    }
  }

  /** One argument of the call. */
  method BuildIndex(index: Summation) returns (r: Expr)
    requires ValidSum(index)
    ensures forall env: Env :: Eval(env, r) == Wrap(SumValue(env, index))
    ensures index.indices == [] ==> r == Const(index.constant)
  {
    var value: Option<Expr> := None;
    if index.indices == [] || index.constant != 0 {
      value := Some(Const(index.constant));
    }
    var s := index.indices;
    for i := 0 to |s|
      invariant value.Some? ==> Computes(value.value, index.constant, s[..i])
      invariant value.None? ==> i == 0 && s != [] && index.constant == 0
      invariant s == [] ==> value == Some(Const(index.constant))
    {
      var addend := s[i].index;
      if s[i].coefficient != 1 {
        addend := Mul(Const(s[i].coefficient), s[i].index);
      }
      NextAddend(addend, value, index.constant, s, i);
      if value.Some? {
        value := Some(Add(addend, value.value));
      } else {
        value := Some(addend);
      }
    }
    assert s[..|s|] == s;
    return value.value;
  }

  /** The arguments compute the indices of the path. */
  ghost predicate Matches(args: seq<Expr>, path: seq<Child>) {
    && |args| == |path|
    && (forall k :: 0 <= k < |path| ==>
          && (forall env: Env :: Eval(env, args[k]) == Wrap(SumValue(env, path[k].index)))
          && (path[k].index.indices == [] ==> args[k] == Const(path[k].index.constant)))
  }

  lemma {:induction false} ElementOffset(env: Env, t: Type, args: seq<Expr>, path: seq<Child>)
    requires Unalias(t).Array? && args != [] && path != []
    requires Eval(env, args[0]) == Wrap(SumValue(env, path[0].index))
    requires var element := Unalias(t).element;
             Wrap(GepOffset(env, element, args[1..])) == Wrap(PathOffset(env, element, path[1..]))
    ensures Wrap(GepOffset(env, t, args)) == Wrap(PathOffset(env, t, path))
  {
    var element := Unalias(t).element;
    StepWraps(SumValue(env, path[0].index), Size(element), GepOffset(env, element, args[1..]),
              PathOffset(env, element, path[1..]));
  }

  lemma {:induction false} FieldOffset(env: Env, t: Type, args: seq<Expr>, path: seq<Child>, f: Field)
    requires Unalias(t).Struct? && args != [] && path != []
    requires Eval(env, args[0]) == path[0].index.constant
    requires FieldAt(Unalias(t).fields, path[0].index.constant) == Some(f)
    requires Wrap(GepOffset(env, f.of, args[1..])) == Wrap(PathOffset(env, f.of, path[1..]))
    ensures Wrap(GepOffset(env, t, args)) == Wrap(PathOffset(env, t, path))
  {
    var x, y := GepOffset(env, f.of, args[1..]), PathOffset(env, f.of, path[1..]);
    assert GepOffset(env, t, args) == f.offset + x;
    assert PathOffset(env, t, path) == path[0].index.constant + y;
    WrapAdd(path[0].index.constant, x);
    WrapAdd(path[0].index.constant, y);
  }

  lemma {:induction false} MemberOffset(env: Env, t: Type, args: seq<Expr>, path: seq<Child>, k: nat)
    requires Unalias(t).Union? && args != [] && path != [] && k < |Unalias(t).members|
    requires Eval(env, args[0]) == path[0].index.constant == k
    requires var m := Unalias(t).members[k];
             Wrap(GepOffset(env, m, args[1..])) == Wrap(PathOffset(env, m, path[1..]))
    ensures Wrap(GepOffset(env, t, args)) == Wrap(PathOffset(env, t, path))
  {
  }

  lemma {:induction false} FirstMatches(env: Env, args: seq<Expr>, path: seq<Child>)
    requires Matches(args, path) && ValidPath(path) && path != []
    ensures Eval(env, args[0]) == Wrap(SumValue(env, path[0].index))
    ensures path[0].index.indices == [] ==> Eval(env, args[0]) == path[0].index.constant
    ensures Matches(args[1..], path[1..]) && ValidPath(path[1..])
  {
  }

  /** The call skips the bytes that the path skips. */
  lemma {:induction false} MatchesOffset(env: Env, t: Type, args: seq<Expr>, path: seq<Child>, goal: Type)
    requires Matches(args, path) && ValidPath(path) && Reaches(t, path, goal)
    ensures Wrap(GepOffset(env, t, args)) == Wrap(PathOffset(env, t, path))
    decreases |path|
  {
    if path != [] {
      var c := path[0].index.constant;
      var next := match Unalias(t)
                  case Array(element, _) => element
                  case Struct(_, _, fields) => FieldAt(fields, c).value.of
                  case Union(_, members) => members[c];
      FirstMatches(env, args, path);
      MatchesOffset(env, next, args[1..], path[1..], goal);
      match Unalias(t)
      case Array(_, _) => ElementOffset(env, t, args, path);
      case Struct(_, _, fields) => FieldOffset(env, t, args, path, FieldAt(fields, c).value);
      case Union(_, _) => MemberOffset(env, t, args, path, c);
    }
  }

  lemma StepWraps(i: int, size: nat, x: int, y: int)
    requires Wrap(x) == Wrap(y)
    ensures Wrap(Wrap(i) * size + x) == Wrap(i * size + y)
  {
    WrapMul(i, size);
    WrapAdd(Wrap(i) * size, x);
    WrapAdd(i * size, y);
  }

  method BuildArguments(path: seq<Child>) returns (args: seq<Expr>)
    requires ValidPath(path)
    ensures Matches(args, path)
  {
    args := [];
    for k := 0 to |path|
      invariant Matches(args, path[..k])
    {
      var arg := BuildIndex(path[k].index);
      args := args + [arg];
      assert path[..k + 1] == path[..k] + [path[k]];
    }
    assert path[..|path|] == path;
  }

  /** The address that the call computes. */
  lemma {:induction false} CallAddress(env: Env, pointee: Type, address: Expr, args: seq<Expr>, path: seq<Child>,
                                       goal: Type)
    requires path != [] && Matches(args, path) && ValidPath(path)
    requires Reaches(Array(pointee, MaxArrayLength), path, goal)
    ensures Eval(env, ModelGep(pointee, address, args))
         == Wrap(Eval(env, address) + PathOffset(env, Array(pointee, MaxArrayLength), path))
  {
    MatchesOffset(env, Array(pointee, MaxArrayLength), args, path, goal);
    var a, x := Eval(env, address), GepOffset(env, Array(pointee, MaxArrayLength), args);
    assert x == Eval(env, args[0]) * Size(pointee) + GepOffset(env, pointee, args[1..]);
    WrapAdd(a, x);
    WrapAdd(a, PathOffset(env, Array(pointee, MaxArrayLength), path));
  }

  /** `r` is `e` plus a constant plus some addends. */
  ghost predicate Adds(r: Expr, e: Expr, constant: nat, s: seq<Addend>) {
    forall env: Env :: Eval(env, r) == Wrap(Eval(env, e) + constant + AddendsValue(env, s))
  }

  lemma {:induction false} AddNothing(e: Expr)
    ensures Adds(e, e, 0, [])
  {
    forall env: Env ensures Eval(env, e) == Wrap(Eval(env, e)) {
      WrapOfSmall(Eval(env, e));
    }
  }

  lemma {:induction false} AddConstant(e: Expr, c: nat)
    requires c < Modulus
    ensures Adds(Add(e, Const(c)), e, c, [])
  {
    forall env: Env ensures Eval(env, Add(e, Const(c))) == Wrap(Eval(env, e) + c + AddendsValue(env, [])) {
      ConstEval(env, Const(c));
      AddEval(env, e, Const(c), Eval(env, e), c, Eval(env, e) + c);
    }
  }

  /** One more term of the left-over arithmetic. */
  lemma {:induction false} AddTerm(r: Expr, e: Expr, constant: nat, s: seq<Addend>, i: nat)
    requires i < |s| && s[i].coefficient < Modulus && Adds(r, e, constant, s[..i])
    ensures Adds(Add(r, Mul(s[i].index, Const(s[i].coefficient))), e, constant, s[..i + 1])
  {
    var term := Mul(s[i].index, Const(s[i].coefficient));
    forall env: Env ensures Eval(env, Add(r, term)) == Wrap(Eval(env, e) + constant + AddendsValue(env, s[..i + 1])) {
      ScaledEval(env, s[i].coefficient, s[i].index);
      OneMore(env, s, i);
      AddWraps(env, r, term, Eval(env, e) + constant + AddendsValue(env, s[..i]),
               s[i].coefficient * Eval(env, s[i].index));
    }
  }

  function AddTerms(e: Expr, s: seq<Addend>): Expr
    decreases |s|
  {
    if s == [] then e
    else
      var last := s[|s| - 1];
      Add(AddTerms(e, s[..|s| - 1]), Mul(last.index, Const(last.coefficient)))
  }

  /** `e` plus the arithmetic that is left over. */
  function WithMismatch(e: Expr, mismatched: Summation): Expr {
    AddTerms(if mismatched.constant != 0 then Add(e, Const(mismatched.constant)) else e, mismatched.indices)
  }

  lemma {:induction false} MismatchAdds(e: Expr, mismatched: Summation, i: nat)
    requires ValidSum(mismatched) && i <= |mismatched.indices|
    ensures Adds(WithMismatch(e, mismatched.(indices := mismatched.indices[..i])), e, mismatched.constant,
                 mismatched.indices[..i])
  {
    var s := mismatched.indices;
    if i == 0 {
      if mismatched.constant == 0 { AddNothing(e); } else { AddConstant(e, mismatched.constant); }
    } else {
      MismatchAdds(e, mismatched, i - 1);
      assert s[..i][..i - 1] == s[..i - 1];
      AddTerm(WithMismatch(e, mismatched.(indices := s[..i - 1])), e, mismatched.constant, s, i - 1);
    }
  }

  method AddMismatch(e: Expr, mismatched: Summation) returns (r: Expr)
    requires ValidSum(mismatched)
    ensures r == WithMismatch(e, mismatched)
  {
    r := e;
    if mismatched.constant != 0 {
      r := Add(r, Const(mismatched.constant));
    }
    var s := mismatched.indices;
    for i := 0 to |s|
      invariant r == WithMismatch(e, mismatched.(indices := s[..i]))
    {
      assert s[..i + 1][..i] == s[..i];
      r := Add(r, Mul(s[i].index, Const(s[i].coefficient)));
    }
    assert s[..|s|] == s;
  }

  lemma {:induction false} CallPlusMismatch(env: Env, pointee: Type, address: Expr, args: seq<Expr>, best: Replacement,
                                            sum: Summation, r: Expr)
    requires best.path != [] && Matches(args, best.path) && ValidPath(best.path)
    requires var fake := Array(pointee, MaxArrayLength);
             && Reaches(fake, best.path, best.accessed)
             && PathOffset(env, fake, best.path) + SumValue(env, best.mismatched) == SumValue(env, sum)
    requires Eval(env, r) == Wrap(Eval(env, ModelGep(pointee, address, args)) + SumValue(env, best.mismatched))
    ensures Eval(env, r) == Wrap(Eval(env, address) + SumValue(env, sum))
  {
    CallAddress(env, pointee, address, args, best.path, best.accessed);
    WrapAdd(Eval(env, address) + PathOffset(env, Array(pointee, MaxArrayLength), best.path),
            SumValue(env, best.mismatched));
  }

  /** What the use is replaced with: a call to ModelGEP along the path, plus what the
      path does not explain. */
  ghost predicate Emits(r: Expr, base: Base, best: Replacement) {
    exists args ::
      Matches(args, best.path) && r == WithMismatch(ModelGep(base.pointee, base.address, args), best.mismatched)
  }

  lemma {:induction false} EmittedIsRight(base: Base, sum: Summation, accessed: Option<Type>, best: Replacement,
                                          r: Expr)
    requires best.path != [] && Explains(Array(base.pointee, MaxArrayLength), sum, accessed, best)
    requires Emits(r, base, best)
    ensures Adds(r, base.address, sum.constant, sum.indices)
  {
    var args :| Matches(args, best.path)
             && r == WithMismatch(ModelGep(base.pointee, base.address, args), best.mismatched);
    var call, m := ModelGep(base.pointee, base.address, args), best.mismatched;
    assert m.indices[..|m.indices|] == m.indices;
    MismatchAdds(call, m, |m.indices|);
    CallIsRight(base, sum, accessed, best, args, r);
  }

  lemma {:induction false} CallIsRight(base: Base, sum: Summation, accessed: Option<Type>, best: Replacement,
                                       args: seq<Expr>, r: Expr)
    requires best.path != [] && Matches(args, best.path)
    requires Explains(Array(base.pointee, MaxArrayLength), sum, accessed, best)
    requires Adds(r, ModelGep(base.pointee, base.address, args), best.mismatched.constant, best.mismatched.indices)
    ensures Adds(r, base.address, sum.constant, sum.indices)
  {
    forall env: Env
      ensures Eval(env, r) == Wrap(Eval(env, base.address) + sum.constant + AddendsValue(env, sum.indices))
    {
      assert PathOffset(env, Array(base.pointee, MaxArrayLength), best.path) + SumValue(env, best.mismatched)
          == SumValue(env, sum);
      CallPlusMismatch(env, base.pointee, base.address, args, best, sum, r);
    }
  }

  /** The emission of a path and a mismatch. */
  method Emit(base: Base, best: Replacement) returns (r: Expr)
    requires ValidPath(best.path) && ValidSum(best.mismatched)
    ensures Emits(r, base, best)
  {
    var args := BuildArguments(best.path);
    r := ModelGep(base.pointee, base.address, args);
    if !IsZero(best.mismatched) {
      r := AddMismatch(r, best.mismatched);
    }
  }

  lemma {:induction false} SoundForAll(types: map<Expr, Type>, e: Expr)
    requires Parse(types, e).Parses?
    ensures ParsedWell(types, Parse(types, e).a)
    ensures forall env: Env :: Sound(types, env, e, Parse(types, e).a)
  {
    forall env: Env ensures Sound(types, env, e, Parse(types, e).a) {
      ParseSound(types, env, e);
    }
    assert Sound(types, v => 0, e, Parse(types, e).a);
  }

  /** Paths that the pass does not emit. */
  predicate IsTrivial(path: seq<Child>) {
    path == [] || (|path| == 1 && IsZero(path[0].index))
  }

  predicate IsAddress(p: Parsed) {
    p.Parses? && p.a.base.Some?
  }

  /** What replaces a use of `e`: the path is the result of the search in an array of
      pointees, and it is emitted unless it is trivial. */
  ghost predicate Replaces(a: Arithmetic, e: Expr, accessed: Option<Type>, r: Expr, best: Replacement)
    requires a.base.Some? && ValidType(a.base.value.pointee)
  {
    var fake := Array(a.base.value.pointee, MaxArrayLength);
    && best == Best(fake, a.sum, accessed) && Fits(fake, a.sum, accessed, best)
    && (if IsTrivial(best.path) then r == e else Emits(r, a.base.value, best))
  }

  method ReplaceAddress(a: Arithmetic, e: Expr, accessed: Option<Type>) returns (r: Expr, best: Replacement)
    requires a.base.Some? && ValidType(a.base.value.pointee) && ValidSum(a.sum) && a.sum.constant < SignBit
    ensures Replaces(a, e, accessed, r, best)
  {
    var fake := Array(a.base.value.pointee, MaxArrayLength);
    best := ComputeBest(fake, a.sum, accessed);
    BestFits(fake, a.sum, accessed);
    if IsTrivial(best.path) {
      return e, best;
    }
    assert best.path[0].kind.ArrayStep?;
    r := Emit(a.base.value, best);
  }

  /** What is emitted for a sound reading of `e` computes what `e` computes. */
  lemma {:induction false} ReplacementIsRight(types: map<Expr, Type>, e: Expr, a: Arithmetic, accessed: Option<Type>,
                                              r: Expr, best: Replacement)
    requires a.base.Some? && !IsTrivial(best.path) && Emits(r, a.base.value, best)
    requires Explains(Array(a.base.value.pointee, MaxArrayLength), a.sum, accessed, best)
    requires forall env: Env :: Sound(types, env, e, a)
    ensures forall env: Env :: Eval(env, r) == Eval(env, e)
  {
    EmittedIsRight(a.base.value, a.sum, accessed, best, r);
    forall env: Env ensures Eval(env, r) == Eval(env, e) {
      assert Sound(types, env, e, a);
    }
  }

  /** Where the summation can be used up on a way to the accessed type, all arithmetic on the
      base address becomes the arguments of one call. */
  lemma {:induction false} CallTakesItAll(a: Arithmetic, e: Expr, r: Expr, best: Replacement, goal: Type)
    requires a.base.Some? && ValidType(a.base.value.pointee)
    requires Replaces(a, e, Some(goal), r, best)
    requires UsedUp(Array(a.base.value.pointee, MaxArrayLength), a.sum, Some(goal), goal)
    requires ValidSum(a.sum) && a.sum.constant < SignBit
    requires Unalias(goal) != Array(a.base.value.pointee, MaxArrayLength)
    requires a.sum != Zero || Unalias(goal) != Unalias(a.base.value.pointee)
    ensures (exists args :: Matches(args, best.path) && r == ModelGep(a.base.value.pointee, a.base.value.address, args))
  {
    var fake := Array(a.base.value.pointee, MaxArrayLength);
    PerfectWhenUsedUp(fake, a.sum, goal);
    ValidIsSized(a.base.value.pointee);
    LeadsSomewhere(fake, a.sum, goal, best);
  }

  lemma {:induction false} StrideParses(types: map<Expr, Type>, p: Expr, i: Expr, k: nat)
    requires p in types && Shl(i, Const(k)) !in types && Add(p, Shl(i, Const(k))) !in types && IsIndex(i) && k < 63
    ensures Parse(types, Add(p, Shl(i, Const(k))))
         == Parses(Arithmetic(Some(Base(types[p], p)), Summation(0, [Addend(Pow2(k), i)])))
  {
    var stride := [Addend(Pow2(k), i)];
    assert Parse(types, p) == Parses(Arithmetic(Some(Base(types[p], p)), Zero));
    assert Parse(types, Shl(i, Const(k))) == Parses(Arithmetic(None, Summation(0, stride)));
    assert stride[1..] == [] && Sort(stride[1..]) == [];
    assert Zero.indices + stride == stride;
  }

  lemma {:induction false} StrideIsUsedUp(t: Type, i: Expr)
    requires t.Array? && ValidType(t) && Size(t) < Modulus
    ensures UsedUp(t, Summation(0, [Addend(Size(t.element), i)]), Some(t.element), t.element)
  {
    var sum, size := Summation(0, [Addend(Size(t.element), i)]), Size(t.element);
    ValidIsSized(t.element);
    MultipleGrows(t.count, 1, size);
    DivideItself(size);
    assert SplitsAt(sum.indices, 1, size) && sum.indices[1..] == [];
    assert UsedUp(t.element, Summation(sum.constant % size, sum.indices[1..]), Some(t.element), t.element);
  }

  /** The access `p[i]`, with the index shifted by the size of what `p` points to, becomes a
      call on `p` with no arithmetic left. */
  lemma {:induction false} StridedAccess(types: map<Expr, Type>, p: Expr, i: Expr, k: nat, a: Arithmetic, r: Expr,
                                         best: Replacement)
    requires p in types && Shl(i, Const(k)) !in types && Add(p, Shl(i, Const(k))) !in types && IsIndex(i) && k < 63
    requires ValidType(types[p]) && Size(types[p]) == Pow2(k) && Size(Array(types[p], MaxArrayLength)) < Modulus
    requires Parse(types, Add(p, Shl(i, Const(k)))) == Parses(a) && a.base.Some? && ValidType(a.base.value.pointee)
    requires Replaces(a, Add(p, Shl(i, Const(k))), Some(types[p]), r, best)
    ensures (exists args :: Matches(args, best.path) && r == ModelGep(types[p], p, args))
  {
    StrideParses(types, p, i, k);
    StrideFits(k);
    StrideIsUsedUp(Array(types[p], MaxArrayLength), i);
    CallTakesItAll(a, Add(p, Shl(i, Const(k))), r, best, types[p]);
  }

  /** A perfect match other than the base itself is worth a call. */
  lemma {:induction false} LeadsSomewhere(t: Type, sum: Summation, goal: Type, best: Replacement)
    requires t.Array? && ValidType(t) && Size(t.element) > 0 && ValidSum(sum) && sum.constant < SignBit
    requires best == Best(t, sum, Some(goal)) && IsPerfect(best, goal) && Reaches(t, best.path, goal)
    requires Unalias(goal) != t && (sum != Zero || Unalias(goal) != Unalias(t.element))
    ensures !IsTrivial(best.path)
  {
    BestTakesElement(t, sum, Some(goal));
    assert |best.path| == 1 ==> best.path[1..] == [] && Reaches(t.element, best.path[1..], goal);
    if |best.path| == 1 && IsZero(best.path[0].index) {
      ZeroIndex(t, sum);
    }
  }

  lemma {:induction false} FirstElement(t: Type, sum: Summation)
    requires t.Array? && Size(t.element) > 0 && sum == Zero
    ensures InArray(t, sum).index == Zero == InElement(sum, Size(t.element))
  {
  }

  lemma {:induction false} FirstIsSettled(t: Type, child: Child)
    requires t.Array? && ValidType(t) && Size(t.element) <= Size(t) < Modulus
    ensures Settled(Under(t, child, NotTraversed(t.element, Zero)), Some(t.element))
  {
    var first := Under(t, child, NotTraversed(t.element, Zero));
    var s := Difference(first, Some(t.element));
    BetterIsTransitive(s, s, s);
  }

  lemma {:induction false} FirstIsBest(t: Type, child: Child)
    requires t.Array? && ValidType(t) && Size(t) < Modulus
    ensures BestInElement(t, child, Zero, Some(t.element)).path == [child]
  {
    ValidIsSized(t.element);
    MultipleGrows(t.count, 1, Size(t.element));
    FirstIsSettled(t, child);
  }

  lemma {:induction false} ArrayCases(t: Type, sum: Summation, accessed: Option<Type>)
    requires t.Array? && ValidType(t) && Size(t.element) > 0
    ensures || BestInArray(t, sum, accessed) == NotTraversed(t, sum)
            || BestInArray(t, sum, accessed)
            == BestInElement(t, InArray(t, sum), InElement(sum, Size(t.element)), accessed)
  {
  }

  lemma {:induction false} ArrayIsFirst(t: Type, sum: Summation, accessed: Option<Type>)
    requires t.Array? && ValidType(t) && Size(t) < Modulus && Size(t.element) > 0 && accessed == Some(t.element)
    requires InArray(t, sum).index == Zero == InElement(sum, Size(t.element))
    ensures IsTrivial(BestInArray(t, sum, accessed).path)
  {
    ArrayCases(t, sum, accessed);
    FirstIsBest(t, InArray(t, sum));
  }

  lemma {:induction false} TrivialInArray(t: Type, sum: Summation, accessed: Option<Type>)
    requires t.Array? && ValidType(t)
    requires Settled(NotTraversed(t, sum), accessed) || IsTrivial(BestInArray(t, sum, accessed).path)
    ensures IsTrivial(Best(t, sum, accessed).path)
  {
  }

  lemma {:induction false} UnknownIsSettled(t: Type, sum: Summation, accessed: Option<Type>)
    requires sum == Zero && accessed.None? && Size(t) < Modulus
    ensures Settled(NotTraversed(t, sum), accessed)
  {
    IdealIsSettled(NotTraversed(t, sum), accessed);
  }

  lemma {:induction false} PointeeIsFirst(t: Type, sum: Summation, accessed: Option<Type>)
    requires t.Array? && ValidType(t) && Size(t) < Modulus && Size(t.element) > 0
    requires sum == Zero && accessed == Some(t.element)
    ensures IsTrivial(BestInArray(t, sum, accessed).path)
  {
    FirstElement(t, sum);
    ArrayIsFirst(t, sum, accessed);
  }

  lemma {:induction false} NothingToTake(t: Type, sum: Summation, accessed: Option<Type>)
    requires t.Array? && ValidType(t) && Size(t) < Modulus && Size(t.element) > 0
    requires sum == Zero && (accessed.None? || accessed.value == t.element)
    ensures Settled(NotTraversed(t, sum), accessed) || IsTrivial(BestInArray(t, sum, accessed).path)
  {
    if accessed.None? { UnknownIsSettled(t, sum, accessed); } else { PointeeIsFirst(t, sum, accessed); }
  }

  /** An access to the pointee at the base address needs no call. */
  lemma {:induction false} PointeeStays(a: Arithmetic, e: Expr, accessed: Option<Type>, r: Expr, best: Replacement)
    requires a.base.Some? && ValidType(a.base.value.pointee) && a.sum == Zero
    requires accessed.None? || accessed.value == a.base.value.pointee
    requires Size(Array(a.base.value.pointee, MaxArrayLength)) < Modulus
    requires Replaces(a, e, accessed, r, best)
    ensures r == e
  {
    ValidIsSized(a.base.value.pointee);
    NothingToTake(Array(a.base.value.pointee, MaxArrayLength), a.sum, accessed);
    TrivialInArray(Array(a.base.value.pointee, MaxArrayLength), a.sum, accessed);
  }

  /** Parsing, searching and emitting compose to the identity on addresses: for
      every value of the variables, the replacement of a use computes the address
      that the use computed. */
  method ReplaceUse(types: map<Expr, Type>, e: Expr, accessed: Option<Type>)
    returns (r: Expr, best: Option<Replacement>)
    requires forall a :: a in types ==> ValidType(types[a])
    ensures forall env: Env :: Eval(env, r) == Eval(env, e)
    ensures best.Some? <==> IsAddress(Parse(types, e))
    ensures best.Some? ==> (ValidType(Parse(types, e).a.base.value.pointee)
                            && Replaces(Parse(types, e).a, e, accessed, r, best.value))
    ensures best.None? ==> r == e
  {
    var parsed := Parse(types, e);
    if !IsAddress(parsed) {
      return e, None;
    }
    SoundForAll(types, e);
    var found;
    r, found := ReplaceAddress(parsed.a, e, accessed);
    if !IsTrivial(found.path) { ReplacementIsRight(types, e, parsed.a, accessed, r, found); }
    best := Some(found);
  }
}

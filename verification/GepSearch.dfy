/** The search for the path through nested arrays, structs and unions that best
    explains a summation. */
module GepSearch {
  import opened Wrappers
  import opened GepArithmetic

  datatype Kind = ArrayStep | StructStep | UnionStep

  datatype Child = Child(index: Summation, kind: Kind)

  datatype Replacement = Replacement(base: Type, path: seq<Child>, mismatched: Summation, accessed: Type)

  // ----- What a path means -----

  /** Following `path` from `t` arrives at `goal`, up to typedefs. */
  predicate Reaches(t: Type, path: seq<Child>, goal: Type)
    decreases path
  {
    if path == [] then Unalias(t) == Unalias(goal)
    else
      var index := path[0].index;
      match Unalias(t)
      case Array(element, _) => path[0].kind.ArrayStep? && Reaches(element, path[1..], goal)
      case Struct(_, _, fields) =>
        && path[0].kind.StructStep? && index.indices == []
        && FieldAt(fields, index.constant).Some?
        && Reaches(FieldAt(fields, index.constant).value.of, path[1..], goal)
      case Union(_, members) =>
        && path[0].kind.UnionStep? && index.indices == [] && index.constant < |members|
        && Reaches(members[index.constant], path[1..], goal)
      case _ => false
  }

  /** The number of bytes that `path` skips. */
  function PathOffset(env: Env, t: Type, path: seq<Child>): int
    decreases path
  {
    if path == [] then 0
    else
      var index := path[0].index;
      match Unalias(t)
      case Array(element, _) => SumValue(env, index) * Size(element) + PathOffset(env, element, path[1..])
      case Struct(_, _, fields) =>
        var f := FieldAt(fields, index.constant);
        if f.Some? then index.constant + PathOffset(env, f.value.of, path[1..]) else 0
      case Union(_, members) =>
        if index.constant < |members| then PathOffset(env, members[index.constant], path[1..]) else 0
      case _ => 0
  }

  /** No constant part of an array index is past the end of its array. */
  predicate InBounds(t: Type, path: seq<Child>)
    decreases path
  {
    path == [] ||
    (var index := path[0].index;
     match Unalias(t)
     case Array(element, count) => index.constant < count && InBounds(element, path[1..])
     case Struct(_, _, fields) =>
       var f := FieldAt(fields, index.constant);
       f.Some? && InBounds(f.value.of, path[1..])
     case Union(_, members) => index.constant < |members| && InBounds(members[index.constant], path[1..])
     case _ => false)
  }

  // ----- Scores -----

  datatype Mismatch = PerfectTypeMatch | SameSize | InRange | OutOfBound

  datatype Score = Score(mismatch: Mismatch, unmatched: Summation, depth: nat)

  function Rank(m: Mismatch): nat {
    match m
    case PerfectTypeMatch => 0
    case SameSize => 1
    case InRange => 2
    case OutOfBound => 3
  }

  datatype Ordering = Less | Same | Greater

  function CompareNat(a: nat, b: nat): Ordering {
    if a < b then Less else if a > b then Greater else Same
  }

  function CompareAddends(a: seq<Addend>, b: seq<Addend>): Ordering
    requires |a| == |b|
  {
    if a == [] then Same
    else if a[0].coefficient < b[0].coefficient then Less
    else if a[0].coefficient > b[0].coefficient then Greater
    else CompareAddends(a[1..], b[1..])
  }

  function CompareSums(a: Summation, b: Summation): Ordering {
    if |a.indices| != |b.indices| then CompareNat(|a.indices|, |b.indices|)
    else
      var c := CompareAddends(a.indices, b.indices);
      if !c.Same? then c else CompareNat(a.constant, b.constant)
  }

  function CompareScores(a: Score, b: Score): Ordering {
    if a.mismatch != b.mismatch then CompareNat(Rank(a.mismatch), Rank(b.mismatch))
    else
      var c := CompareSums(a.unmatched, b.unmatched);
      if !c.Same? then c else CompareNat(a.depth, b.depth)
  }

  predicate Better(a: Score, b: Score) {
    CompareScores(a, b).Less?
  }

  lemma {:induction false} AddendsOrdered(a: seq<Addend>, b: seq<Addend>, c: seq<Addend>)
    requires |a| == |b| == |c|
    ensures CompareAddends(a, a).Same?
    ensures !CompareAddends(a, b).Greater? && !CompareAddends(b, c).Greater? ==>
              !CompareAddends(a, c).Greater?
              && (CompareAddends(a, c).Same? ==> CompareAddends(a, b).Same? && CompareAddends(b, c).Same?)
  {
    if a != [] { AddendsOrdered(a[1..], b[1..], c[1..]); }
  }

  lemma {:induction false} AddendsAntisymmetric(a: seq<Addend>, b: seq<Addend>)
    requires |a| == |b|
    ensures CompareAddends(a, b).Less? <==> CompareAddends(b, a).Greater?
    ensures CompareAddends(a, b).Greater? <==> CompareAddends(b, a).Less?
  {
    if a != [] { AddendsAntisymmetric(a[1..], b[1..]); }
  }

  /** Scores are ordered transitively, and no score is better than itself. */
  lemma BetterIsTransitive(a: Score, b: Score, c: Score)
    ensures !Better(a, a)
    ensures Better(a, b) && Better(b, c) ==> Better(a, c)
  {
    AddendsOrdered(a.unmatched.indices, a.unmatched.indices, a.unmatched.indices);
    if |a.unmatched.indices| == |b.unmatched.indices| == |c.unmatched.indices| {
      AddendsOrdered(a.unmatched.indices, b.unmatched.indices, c.unmatched.indices);
    }
  }

  lemma NotBetterIsTransitive(a: Score, b: Score, c: Score)
    requires !Better(a, b) && !Better(b, c)
    ensures !Better(a, c)
  {
    if |a.unmatched.indices| == |b.unmatched.indices| == |c.unmatched.indices| {
      AddendsAntisymmetric(a.unmatched.indices, b.unmatched.indices);
      AddendsAntisymmetric(b.unmatched.indices, c.unmatched.indices);
      AddendsAntisymmetric(a.unmatched.indices, c.unmatched.indices);
      AddendsOrdered(c.unmatched.indices, b.unmatched.indices, a.unmatched.indices);
    }
  }

  /** The size that the IR accesses, zero when it is not known. */
  function AccessedSize(t: Option<Type>): nat {
    if t.Some? then Size(t.value) else 0
  }

  function LowerBound(r: Replacement, accessed: Option<Type>): Score {
    var end := Wrap(r.mismatched.constant + AccessedSize(accessed));
    var depth := |r.path|;
    if end > Size(r.base) then Score(OutOfBound, Summation(end - Size(r.base), []), depth)
    else
      var deeper := depth + if r.mismatched.indices != [] then |r.mismatched.indices|
                            else if r.mismatched.constant == 0 then 0 else 1;
      Score(if accessed.None? then InRange else PerfectTypeMatch, Zero, deeper)
  }

  function Difference(r: Replacement, accessed: Option<Type>): Score {
    var depth := |r.path|;
    if !IsZero(r.mismatched) then Score(OutOfBound, r.mismatched, depth)
    else if accessed.None? then Score(InRange, Zero, depth)
    else if accessed.value == r.accessed then Score(PerfectTypeMatch, Zero, depth)
    else
      var irSize, gepSize := Size(accessed.value), Size(r.accessed);
      if irSize == gepSize then Score(SameSize, Zero, depth)
      else if irSize < gepSize then Score(InRange, Zero, depth)
      else Score(OutOfBound, Summation(irSize, []), depth)
  }

  // ----- What every result of the search satisfies -----

  /** The address is conserved for all values of the indices, the path arrives at
      the type it records, the coefficients still descend, and constant array
      indices are in bounds when the access is not empty and ends below the
      address space. */
  ghost predicate Explains(base: Type, sum: Summation, accessed: Option<Type>, r: Replacement) {
    && ValidSum(r.mismatched) && r.mismatched.constant <= sum.constant
    && Reaches(base, r.path, r.accessed) && ValidPath(r.path)
    && (forall env: Env :: PathOffset(env, base, r.path) + SumValue(env, r.mismatched) == SumValue(env, sum))
    && (AccessedSize(accessed) >= 1 && sum.constant + AccessedSize(accessed) < Modulus ==> InBounds(base, r.path))
    && ValidType(r.accessed)
  }

  ghost predicate ValidPath(path: seq<Child>) {
    forall k :: 0 <= k < |path| ==> ValidSum(path[k].index)
  }

  lemma StepIsValid(child: Child, path: seq<Child>)
    requires ValidSum(child.index) && ValidPath(path)
    ensures ValidPath([child] + path)
  {
  }

  function NotTraversed(base: Type, sum: Summation): Replacement {
    Replacement(base, [], sum, base)
  }

  /** The score is not worse than that of taking no path. */
  predicate NotWorse(base: Type, sum: Summation, accessed: Option<Type>, r: Replacement) {
    !Better(Difference(NotTraversed(base, sum), accessed), Difference(r, accessed))
  }

  lemma NoPathExplains(base: Type, sum: Summation, accessed: Option<Type>)
    requires ValidType(base) && ValidSum(sum)
    ensures Explains(base, sum, accessed, NotTraversed(base, sum))
    ensures NotWorse(base, sum, accessed, NotTraversed(base, sum))
  {
    var s := Difference(NotTraversed(base, sum), accessed);
    BetterIsTransitive(s, s, s);
  }

  // ----- Arrays -----

  /** The number of indices whose coefficient is at least `size`. */
  function Large(indices: seq<Addend>, size: nat): (n: nat)
    ensures n <= |indices|
    ensures forall i :: 0 <= i < n ==> indices[i].coefficient >= size
    ensures n < |indices| ==> indices[n].coefficient < size
  {
    if indices == [] || indices[0].coefficient < size then 0 else 1 + Large(indices[1..], size)
  }

  /** Every coefficient is divided by `size`. */
  ghost predicate Divided(size: nat, quotients: seq<Addend>, indices: seq<Addend>) {
    && |quotients| == |indices|
    && (forall i :: 0 <= i < |indices| ==>
          quotients[i].index == indices[i].index && quotients[i].coefficient * size == indices[i].coefficient)
  }

  lemma {:induction false} DividedValue(env: Env, size: nat, quotients: seq<Addend>, indices: seq<Addend>)
    requires Divided(size, quotients, indices)
    ensures AddendsValue(env, quotients) * size == AddendsValue(env, indices)
  {
    if indices != [] {
      DividedValue(env, size, quotients[1..], indices[1..]);
      var q, v, rest := quotients[0].coefficient, Eval(env, indices[0].index), AddendsValue(env, quotients[1..]);
      Scale(q, v, rest, size);
    }
  }

  lemma Scale(q: int, v: int, rest: int, size: int)
    ensures (q * v + rest) * size == (q * size) * v + rest * size
  {
  }

  lemma DividedIsValid(size: nat, quotients: seq<Addend>, indices: seq<Addend>)
    requires size > 0 && Divided(size, quotients, indices) && ValidSum(Summation(0, indices))
    ensures ValidSum(Summation(0, quotients))
  {
    forall i | 0 <= i < |quotients| ensures quotients[i].coefficient < SignBit {
      MultipleGrows(quotients[i].coefficient, SignBit, size);
    }
    forall i, j | 0 <= i < j < |quotients| ensures quotients[i].coefficient >= quotients[j].coefficient {
      MultipleGrows(quotients[i].coefficient, quotients[j].coefficient, size);
    }
  }

  lemma MultipleGrows(a: nat, b: nat, m: nat)
    requires m > 0
    ensures a < b ==> a * m < b * m
    ensures a >= b ==> a * m >= b * m
    ensures a * m >= a
  {
    if a < b { MulMono(a, b, m); } else { MulMono(b, a, m); }
    MulMono(1, m, a);
  }

  lemma MulMono(a: nat, b: nat, m: nat)
    requires a <= b
    ensures a * m <= b * m
    ensures a < b && m > 0 ==> a * m < b * m
  {
    assert (b - a) * m >= 0;
    assert b * m == a * m + (b - a) * m;
  }

  lemma ArrayStepExplains(t: Type, sum: Summation, accessed: Option<Type>, index: Summation, inElement: Summation,
                          r: Replacement)
    requires t.Array? && ValidType(t) && ValidSum(index)
    requires inElement.constant <= sum.constant
    requires forall env: Env :: SumValue(env, index) * Size(t.element) + SumValue(env, inElement) == SumValue(env, sum)
    requires AccessedSize(accessed) >= 1 && sum.constant + AccessedSize(accessed) < Modulus ==> index.constant < t.count
    requires Explains(t.element, inElement, accessed, r)
    ensures Explains(t, sum, accessed, Replacement(t, [Child(index, ArrayStep)] + r.path, r.mismatched, r.accessed))
  {
    var path := [Child(index, ArrayStep)] + r.path;
    StepIsValid(Child(index, ArrayStep), r.path);
    assert path[1..] == r.path;
    forall env: Env ensures PathOffset(env, t, path) + SumValue(env, r.mismatched) == SumValue(env, sum) {
      assert PathOffset(env, t.element, r.path) + SumValue(env, r.mismatched) == SumValue(env, inElement);
    }
  }

  /** The index of the element: `q` elements for the constant part, and the large
      coefficients in units of one element. */
  function ElementIndex(q: nat, quotients: seq<Addend>): Summation {
    if quotients == [] then Summation(q, [])
    else
      var s := Plus(Summation(q, []), Summation(0, quotients));
      if s.Some? then s.value else Zero
  }

  lemma ElementIndexIsValid(q: nat, size: nat, quotients: seq<Addend>, indices: seq<Addend>)
    requires q < SignBit && size > 0 && Divided(size, quotients, indices) && ValidSum(Summation(0, indices))
    ensures ValidSum(ElementIndex(q, quotients))
  {
    DividedIsValid(size, quotients, indices);
    if quotients != [] {
      ElementIndexValue(k => 0, q, quotients);
      PlusIsValid(Summation(q, []), Summation(0, quotients));
    }
  }

  lemma ElementIndexValue(env: Env, q: nat, quotients: seq<Addend>)
    requires q < SignBit
    ensures quotients != [] ==> Plus(Summation(q, []), Summation(0, quotients)).Some?
    ensures SumValue(env, ElementIndex(q, quotients)) == q + AddendsValue(env, quotients)
    ensures ElementIndex(q, quotients).constant == q
  {
    if quotients != [] { PlusAdds(env, Summation(q, []), Summation(0, quotients)); }
  }

  /** Splitting the summation between the index of the element and what is inside
      it conserves the sum. */
  lemma SplitConserves(env: Env, sum: Summation, size: nat, n: nat, quotients: seq<Addend>, q: nat, m: nat)
    requires n <= |sum.indices| && q < SignBit && q * size + m == sum.constant
    requires Divided(size, quotients, sum.indices[..n])
    ensures SumValue(env, ElementIndex(q, quotients)) * size + SumValue(env, Summation(m, sum.indices[n..]))
         == SumValue(env, sum)
  {
    ElementIndexValue(env, q, quotients);
    DividedValue(env, size, quotients, sum.indices[..n]);
    assert sum.indices == sum.indices[..n] + sum.indices[n..];
    AddendsAppend(env, sum.indices[..n], sum.indices[n..]);
    Scale(1, q, AddendsValue(env, quotients), size);
  }

  lemma SuffixIsValid(sum: Summation, n: nat, m: nat)
    requires ValidSum(sum) && n <= |sum.indices| && m < Modulus
    ensures ValidSum(Summation(m, sum.indices[n..]))
  {
  }

  lemma QuotientFits(c: nat, size: nat)
    requires size > 0
    ensures (c / size) * size + c % size == c && c / size <= c && c % size <= c
  {
    MultipleGrows(c / size, 0, size);
  }

  /** A constant that lies inside the array indexes one of its elements. */
  lemma IndexInBounds(constant: nat, accessed: nat, size: nat, count: nat)
    requires size > 0 && accessed >= 1 && constant + accessed < Modulus
    requires Wrap(constant + accessed) <= Wrap(size * count)
    ensures constant / size < count
  {
    assert constant < size * count;
    QuotientFits(constant, size);
    if constant / size >= count { MultipleGrows(constant / size, count, size); Commute(size, count); }
  }

  lemma Commute(a: int, b: int)
    ensures a * b == b * a
  {
  }

  /** The indices with a large coefficient, in units of one element; `None` when
      one of them does not step by whole elements. */
  method UnwrapIndices(indices: seq<Addend>, size: nat) returns (r: Option<seq<Addend>>)
    requires size > 0 && Descending(indices)
    ensures r.Some? <==> AllMultiples(indices[..Large(indices, size)], size)
    ensures r.Some? ==> r.value == Quotients(indices[..Large(indices, size)], size)
  {
    var quotients := [];
    var end := Large(indices, size);
    var i := 0;
    while i < end
      invariant 0 <= i <= end
      invariant quotients == Quotients(indices[..i], size)
      invariant AllMultiples(indices[..i], size)
    {
      var coefficient, index := indices[i].coefficient, indices[i].index;
      QuotientsSnoc(indices[..i], indices[i], size);
      assert indices[..i + 1] == indices[..i] + [indices[i]];
      if coefficient > size {
        if coefficient % size != 0 {
          assert indices[..end][i] == indices[i];
          return None;
        }
        quotients := quotients + [Addend(coefficient / size, index)];
      } else {
        assert coefficient == size;
        DivideItself(size);
        quotients := quotients + [Addend(1, index)];
      }
      i := i + 1;
    }
    return Some(quotients);
  }

  lemma DivideItself(m: nat)
    requires m > 0
    ensures m % m == 0 && m / m == 1
  {
  }

  lemma {:induction false} QuotientsSnoc(s: seq<Addend>, a: Addend, size: nat)
    requires size > 0
    ensures Quotients(s + [a], size) == Quotients(s, size) + [Addend(a.coefficient / size, a.index)]
  {
    if s == [] {
      assert [a][1..] == [];
    } else {
      assert (s + [a])[1..] == s[1..] + [a];
      QuotientsSnoc(s[1..], a, size);
    }
  }

  lemma IntoElementAt(t: Type, sum: Summation, accessed: Option<Type>, quotients: seq<Addend>, q: nat, m: nat, n: nat,
                      r: Replacement)
    requires t.Array? && ValidType(t) && n <= |sum.indices| && q < SignBit && m <= sum.constant
    requires ValidSum(sum) && Size(t.element) > 0
    requires q * Size(t.element) + m == sum.constant
    requires AccessedSize(accessed) >= 1 && sum.constant + AccessedSize(accessed) < Modulus ==> q < t.count
    requires Divided(Size(t.element), quotients, sum.indices[..n])
    requires Explains(t.element, Summation(m, sum.indices[n..]), accessed, r)
    ensures Explains(t, sum, accessed,
                     Replacement(t, [Child(ElementIndex(q, quotients), ArrayStep)] + r.path, r.mismatched, r.accessed))
  {
    var inner := Summation(m, sum.indices[n..]);
    var index := ElementIndex(q, quotients);
    forall env: Env
      ensures SumValue(env, index) * Size(t.element) + SumValue(env, inner) == SumValue(env, sum)
    {
      SplitConserves(env, sum, Size(t.element), n, quotients, q, m);
    }
    ElementIndexValue(k => 0, q, quotients);
    ElementIndexIsValid(q, Size(t.element), quotients, sum.indices[..n]);
    ArrayStepExplains(t, sum, accessed, index, inner, r);
  }

  /** One step into the array, followed by what explains the element. */
  lemma IntoElement(t: Type, sum: Summation, accessed: Option<Type>, quotients: seq<Addend>, r: Replacement)
    requires t.Array? && ValidType(t) && ValidSum(sum) && sum.constant < SignBit && Size(t.element) > 0
    requires Wrap(sum.constant + AccessedSize(accessed)) <= Wrap(Size(t.element) * t.count)
    requires Divided(Size(t.element), quotients, sum.indices[..Large(sum.indices, Size(t.element))])
    requires Explains(t.element, InElement(sum, Size(t.element)), accessed, r)
    ensures Explains(t, sum, accessed,
                     Replacement(t, [Child(ElementIndex(sum.constant / Size(t.element), quotients), ArrayStep)]
                                    + r.path,
                                 r.mismatched, r.accessed))
  {
    var size := Size(t.element);
    QuotientFits(sum.constant, size);
    if AccessedSize(accessed) >= 1 && sum.constant + AccessedSize(accessed) < Modulus {
      IndexInBounds(sum.constant, AccessedSize(accessed), size, t.count);
    }
    IntoElementAt(t, sum, accessed, quotients, sum.constant / size, sum.constant % size, Large(sum.indices, size), r);
  }

  /** What is left of the summation inside the element. */
  function InElement(sum: Summation, size: nat): Summation
    requires size > 0
  {
    Summation(sum.constant % size, sum.indices[Large(sum.indices, size)..])
  }

  lemma InElementIsValid(sum: Summation, size: nat)
    requires size > 0 && ValidSum(sum)
    ensures ValidSum(InElement(sum, size)) && InElement(sum, size).constant <= sum.constant
  {
    QuotientFits(sum.constant, size);
    SuffixIsValid(sum, Large(sum.indices, size), sum.constant % size);
  }

  // ----- Structs -----

  /** The number of fields that start at or before `offset`. */
  function Started(fields: seq<Field>, offset: nat): (n: nat)
    ensures n <= |fields|
    ensures forall i :: 0 <= i < n ==> fields[i].offset <= offset
    ensures n < |fields| ==> fields[n].offset > offset
  {
    if fields == [] || fields[0].offset > offset then 0 else 1 + Started(fields[1..], offset)
  }

  function InField(sum: Summation, offset: nat): Summation
    requires offset <= sum.constant
  {
    sum.(constant := sum.constant - offset)
  }

  lemma IntoField(t: Type, sum: Summation, accessed: Option<Type>, i: nat, r: Replacement)
    requires t.Struct? && ValidType(t) && ValidSum(sum) && i < |t.fields| && t.fields[i].offset <= sum.constant
    requires Explains(t.fields[i].of, InField(sum, t.fields[i].offset), accessed, r)
    ensures Explains(t, sum, accessed,
                     Replacement(t, [Child(Summation(t.fields[i].offset, []), StructStep)] + r.path,
                                 r.mismatched, r.accessed))
  {
    var f := t.fields[i];
    var path := [Child(Summation(f.offset, []), StructStep)] + r.path;
    FieldAtIts(t.fields, i);
    StepIsValid(path[0], r.path);
    assert path[1..] == r.path;
    forall env: Env ensures PathOffset(env, t, path) + SumValue(env, r.mismatched) == SumValue(env, sum) {
      assert PathOffset(env, f.of, r.path) + SumValue(env, r.mismatched) == SumValue(env, InField(sum, f.offset));
    }
  }

  // ----- Unions -----

  lemma IntoMember(t: Type, sum: Summation, accessed: Option<Type>, i: nat, r: Replacement)
    requires t.Union? && ValidType(t) && ValidSum(sum) && i < |t.members|
    requires Explains(t.members[i], sum, accessed, r)
    ensures Explains(t, sum, accessed,
                     Replacement(t, [Child(Summation(i, []), UnionStep)] + r.path, r.mismatched, r.accessed))
  {
    var path := [Child(Summation(i, []), UnionStep)] + r.path;
    StepIsValid(path[0], r.path);
    assert path[1..] == r.path;
    forall env: Env ensures PathOffset(env, t, path) + SumValue(env, r.mismatched) == SumValue(env, sum) {
      assert PathOffset(env, t.members[i], r.path) + SumValue(env, r.mismatched) == SumValue(env, sum);
    }
  }

  // ----- Any type -----

  /** Typedefs can be skipped before the search. */
  lemma ThroughAlias(t: Type, sum: Summation, accessed: Option<Type>, r: Replacement)
    requires Explains(Unalias(t), sum, accessed, r)
    ensures Explains(t, sum, accessed, r)
  {
    UnaliasIsIdempotent(t);
    forall env: Env ensures PathOffset(env, t, r.path) + SumValue(env, r.mismatched) == SumValue(env, sum) {
      assert PathOffset(env, Unalias(t), r.path) + SumValue(env, r.mismatched) == SumValue(env, sum);
    }
  }

  lemma UnaliasIsIdempotent(t: Type)
    ensures Unalias(Unalias(t)) == Unalias(t)
  {
  }

  /** Once the pass has decided to look deeper, taking no path scores no worse behind
      the typedefs than in front of them. */
  lemma BehindAlias(t: Type, sum: Summation, accessed: Option<Type>)
    requires ValidType(t)
    requires Better(LowerBound(NotTraversed(t, sum), accessed), Difference(NotTraversed(t, sum), accessed))
    ensures !Better(Difference(NotTraversed(t, sum), accessed), Difference(NotTraversed(Unalias(t), sum), accessed))
  {
    UnaliasKeeps(t);
    var s := Difference(NotTraversed(t, sum), accessed);
    BetterIsTransitive(s, s, s);
  }

  // ----- The search, as a function -----

  /** `r`, found in a part of `t` that `child` selects. */
  function Under(t: Type, child: Child, r: Replacement): Replacement {
    Replacement(t, [child] + r.path, r.mismatched, r.accessed)
  }

  function Pick(best: Replacement, other: Replacement, accessed: Option<Type>): Replacement {
    if Better(Difference(other, accessed), Difference(best, accessed)) then other else best
  }

  function Quotients(indices: seq<Addend>, size: nat): seq<Addend>
    requires size > 0
  {
    if indices == [] then []
    else [Addend(indices[0].coefficient / size, indices[0].index)] + Quotients(indices[1..], size)
  }

  predicate AllMultiples(indices: seq<Addend>, size: nat)
    requires size > 0
  {
    forall i :: 0 <= i < |indices| ==> indices[i].coefficient % size == 0
  }

  function InArray(t: Type, sum: Summation): Child
    requires t.Array? && Size(t.element) > 0
  {
    var size := Size(t.element);
    Child(ElementIndex(sum.constant / size, Quotients(sum.indices[..Large(sum.indices, size)], size)), ArrayStep)
  }

  /** The access does not end past `size`. */
  predicate Within(sum: Summation, accessed: Option<Type>, size: nat) {
    Wrap(sum.constant + AccessedSize(accessed)) <= size
  }

  function BestInArray(t: Type, sum: Summation, accessed: Option<Type>): Replacement
    requires t.Array? && ValidType(t)
    decreases t, 0, 1
  {
    ValidIsSized(t.element);
    var size := Size(t.element);
    if !Within(sum, accessed, Wrap(size * t.count)) || !AllMultiples(sum.indices[..Large(sum.indices, size)], size) then
      NotTraversed(t, sum)
    else
      BestInElement(t, InArray(t, sum), InElement(sum, size), accessed)
  }

  function BestInElement(t: Type, child: Child, inner: Summation, accessed: Option<Type>): Replacement
    requires t.Array? && ValidType(t)
    decreases t, 0, 0
  {
    var best := Under(t, child, NotTraversed(t.element, inner));
    if Settled(best, accessed) then best
    else Pick(best, Under(t, child, Best(t.element, inner, accessed)), accessed)
  }

  /** The best of `best` and the fields below position `i`, from the last one back,
      as long as the lower bound promises an improvement. */
  function BestInFields(t: Type, sum: Summation, accessed: Option<Type>, bound: Score, i: nat,
                        best: Replacement): Replacement
    requires t.Struct? && ValidType(t) && i <= Started(t.fields, sum.constant)
    decreases t, 0, i
  {
    if i == 0 then best
    else if !Better(bound, Difference(best, accessed)) then BestInFields(t, sum, accessed, bound, i - 1, best)
    else
      var f := t.fields[i - 1];
      var r := Under(t, Child(Summation(f.offset, []), StructStep), Best(f.of, InField(sum, f.offset), accessed));
      BestInFields(t, sum, accessed, bound, i - 1, Pick(best, r, accessed))
  }

  function BestInMembers(t: Type, sum: Summation, accessed: Option<Type>, bound: Score, i: nat,
                         best: Replacement): Replacement
    requires t.Union? && ValidType(t) && i <= |t.members|
    decreases t, 0, |t.members| - i
  {
    if i == |t.members| then best
    else if !Better(bound, Difference(best, accessed)) then BestInMembers(t, sum, accessed, bound, i + 1, best)
    else
      var r := Under(t, Child(Summation(i, []), UnionStep), Best(t.members[i], sum, accessed));
      BestInMembers(t, sum, accessed, bound, i + 1, Pick(best, r, accessed))
  }

  /** Taking no path, when that cannot be improved. */
  predicate Settled(none: Replacement, accessed: Option<Type>) {
    !Better(LowerBound(none, accessed), Difference(none, accessed))
  }

  function Best(t: Type, sum: Summation, accessed: Option<Type>): Replacement
    requires ValidType(t)
    decreases t, 1
  {
    UnaliasKeeps(t);
    var u := Unalias(t);
    var none, unwrapped := NotTraversed(t, sum), NotTraversed(u, sum);
    if u.Scalar? || Settled(none, accessed) then none
    else if u.Array? then Pick(none, BestInArray(u, sum, accessed), accessed)
    else if !Within(sum, accessed, Size(u)) || Settled(unwrapped, accessed) then unwrapped
    else
      var bound := LowerBound(unwrapped, accessed);
      if u.Struct? then BestInFields(u, sum, accessed, bound, Started(u.fields, sum.constant), unwrapped)
      else BestInMembers(u, sum, accessed, bound, 0, unwrapped)
  }

  // ----- What the search finds -----

  /** A candidate that explains the sum, and is no worse than taking no path. */
  ghost predicate Fits(t: Type, sum: Summation, accessed: Option<Type>, r: Replacement) {
    Explains(t, sum, accessed, r) && NotWorse(t, sum, accessed, r)
  }

  lemma {:induction false} PickFits(t: Type, sum: Summation, accessed: Option<Type>, best: Replacement,
                                    other: Replacement)
    requires Fits(t, sum, accessed, best) && Explains(t, sum, accessed, other)
    ensures Fits(t, sum, accessed, Pick(best, other, accessed))
  {
    BetterIsTransitive(Difference(NotTraversed(t, sum), accessed), Difference(other, accessed),
                       Difference(best, accessed));
  }

  lemma {:induction false} QuotientsDivide(indices: seq<Addend>, size: nat)
    requires size > 0 && AllMultiples(indices, size)
    ensures Divided(size, Quotients(indices, size), indices)
  {
    if indices != [] {
      QuotientFits(indices[0].coefficient, size);
      QuotientsDivide(indices[1..], size);
    }
  }

  /** One step into the array leaves a valid summation for the element. */
  lemma {:induction false} ElementExplains(t: Type, sum: Summation, accessed: Option<Type>, r: Replacement)
    requires t.Array? && ValidType(t) && ValidSum(sum) && sum.constant < SignBit && Size(t.element) > 0
    requires Within(sum, accessed, Wrap(Size(t.element) * t.count))
    requires AllMultiples(sum.indices[..Large(sum.indices, Size(t.element))], Size(t.element))
    requires Explains(t.element, InElement(sum, Size(t.element)), accessed, r)
    ensures Explains(t, sum, accessed, Under(t, InArray(t, sum), r))
  {
    var size := Size(t.element);
    var large := sum.indices[..Large(sum.indices, size)];
    QuotientsDivide(large, size);
    IntoElement(t, sum, accessed, Quotients(large, size), r);
  }

  lemma {:induction false} ArrayExplains(t: Type, sum: Summation, accessed: Option<Type>)
    requires t.Array? && ValidType(t) && ValidSum(sum) && sum.constant < SignBit
    ensures Explains(t, sum, accessed, BestInArray(t, sum, accessed))
    decreases t, 0
  {
    var size := Size(t.element);
    ValidIsSized(t.element);
    NoPathExplains(t, sum, accessed);
    if Within(sum, accessed, Wrap(size * t.count)) && AllMultiples(sum.indices[..Large(sum.indices, size)], size) {
      var inner := InElement(sum, size);
      InElementIsValid(sum, size);
      NoPathExplains(t.element, inner, accessed);
      ElementExplains(t, sum, accessed, NotTraversed(t.element, inner));
      BestFits(t.element, inner, accessed);
      ElementExplains(t, sum, accessed, Best(t.element, inner, accessed));
    }
  }

  /** One more field is looked at. */
  lemma {:induction false} FieldFits(t: Type, sum: Summation, accessed: Option<Type>, i: nat, r: Replacement,
                                     best: Replacement)
    requires t.Struct? && ValidType(t) && ValidSum(sum) && i < |t.fields| && t.fields[i].offset <= sum.constant
    requires Explains(t.fields[i].of, InField(sum, t.fields[i].offset), accessed, r) && Fits(t, sum, accessed, best)
    ensures Fits(t, sum, accessed,
                 Pick(best, Under(t, Child(Summation(t.fields[i].offset, []), StructStep), r), accessed))
  {
    IntoField(t, sum, accessed, i, r);
    PickFits(t, sum, accessed, best, Under(t, Child(Summation(t.fields[i].offset, []), StructStep), r));
  }

  lemma {:induction false} FieldsFit(t: Type, sum: Summation, accessed: Option<Type>, bound: Score, i: nat,
                                     best: Replacement)
    requires t.Struct? && ValidType(t) && ValidSum(sum) && sum.constant < SignBit
    requires i <= Started(t.fields, sum.constant)
    requires Fits(t, sum, accessed, best)
    ensures Fits(t, sum, accessed, BestInFields(t, sum, accessed, bound, i, best))
    decreases t, 0, i
  {
    if i > 0 {
      var f := t.fields[i - 1];
      if !Better(bound, Difference(best, accessed)) {
        FieldsFit(t, sum, accessed, bound, i - 1, best);
      } else {
        var r := Best(f.of, InField(sum, f.offset), accessed);
        BestFits(f.of, InField(sum, f.offset), accessed);
        FieldFits(t, sum, accessed, i - 1, r, best);
        FieldsFit(t, sum, accessed, bound, i - 1,
                  Pick(best, Under(t, Child(Summation(f.offset, []), StructStep), r), accessed));
      }
    }
  }

  lemma {:induction false} MembersFit(t: Type, sum: Summation, accessed: Option<Type>, bound: Score, i: nat,
                                      best: Replacement)
    requires t.Union? && ValidType(t) && ValidSum(sum) && sum.constant < SignBit && i <= |t.members|
    requires Fits(t, sum, accessed, best)
    ensures Fits(t, sum, accessed, BestInMembers(t, sum, accessed, bound, i, best))
    decreases t, 0, |t.members| - i
  {
    if i < |t.members| {
      if !Better(bound, Difference(best, accessed)) {
        MembersFit(t, sum, accessed, bound, i + 1, best);
      } else {
        BestFits(t.members[i], sum, accessed);
        var r := Best(t.members[i], sum, accessed);
        IntoMember(t, sum, accessed, i, r);
        var under := Under(t, Child(Summation(i, []), UnionStep), r);
        PickFits(t, sum, accessed, best, under);
        MembersFit(t, sum, accessed, bound, i + 1, Pick(best, under, accessed));
      }
    }
  }

  lemma {:induction false} UnaliasedFits(t: Type, sum: Summation, accessed: Option<Type>, r: Replacement)
    requires ValidType(t) && !Settled(NotTraversed(t, sum), accessed) && Fits(Unalias(t), sum, accessed, r)
    ensures Fits(t, sum, accessed, r)
  {
    BehindAlias(t, sum, accessed);
    ThroughAlias(t, sum, accessed, r);
    NotBetterIsTransitive(Difference(NotTraversed(t, sum), accessed),
                          Difference(NotTraversed(Unalias(t), sum), accessed), Difference(r, accessed));
  }

  /** For every type, summation and accessed type: the address is conserved, the path
      is well typed and in bounds, and the score is not worse than that of no path. */
  lemma {:induction false} BestFits(t: Type, sum: Summation, accessed: Option<Type>)
    requires ValidType(t) && ValidSum(sum) && sum.constant < SignBit
    ensures Fits(t, sum, accessed, Best(t, sum, accessed))
    decreases t, 1
  {
    var u := Unalias(t);
    UnaliasKeeps(t);
    var none, unwrapped := NotTraversed(t, sum), NotTraversed(u, sum);
    NoPathExplains(t, sum, accessed);
    NoPathExplains(u, sum, accessed);
    if u.Scalar? || Settled(none, accessed) {
    } else if u.Array? {
      ArrayExplains(u, sum, accessed);
      ThroughAlias(t, sum, accessed, BestInArray(u, sum, accessed));
      PickFits(t, sum, accessed, none, BestInArray(u, sum, accessed));
    } else {
      if Within(sum, accessed, Size(u)) && !Settled(unwrapped, accessed) {
        var bound := LowerBound(unwrapped, accessed);
        if u.Struct? {
          FieldsFit(u, sum, accessed, bound, Started(u.fields, sum.constant), unwrapped);
        } else {
          MembersFit(u, sum, accessed, bound, 0, unwrapped);
        }
      }
      UnaliasedFits(t, sum, accessed, Best(t, sum, accessed));
    }
  }

  // ----- The search, as the loops that perform it -----

  method ComputeBestInElement(t: Type, child: Child, inner: Summation, accessed: Option<Type>)
    returns (best: Replacement)
    requires t.Array? && ValidType(t) && ValidSum(inner) && inner.constant < SignBit
    ensures best == BestInElement(t, child, inner, accessed)
    decreases t, 0, 0
  {
    best := Replacement(t, [child], inner, t.element);
    assert best == Under(t, child, NotTraversed(t.element, inner));
    var bestScore := Difference(best, accessed);
    if !Better(LowerBound(best, accessed), bestScore) {
      return;
    }
    var result := ComputeBest(t.element, inner, accessed);
    result := result.(base := t, path := [child] + result.path);
    if Better(Difference(result, accessed), bestScore) {
      best := result;
    }
  }

  lemma {:induction false} BestInArrayIs(t: Type, sum: Summation, accessed: Option<Type>)
    requires t.Array? && ValidType(t) && ValidSum(sum) && sum.constant < SignBit
    ensures var size := Size(t.element);
            BestInArray(t, sum, accessed)
            == if Wrap(sum.constant + AccessedSize(accessed)) > Wrap(size * t.count)
                  || size == 0 || !AllMultiples(sum.indices[..Large(sum.indices, size)], size)
               then NotTraversed(t, sum)
               else BestInElement(t, InArray(t, sum), InElement(sum, size), accessed)
  {
    ValidIsSized(t.element);
  }

  method ComputeBestInArray(t: Type, sum: Summation, accessed: Option<Type>) returns (best: Replacement)
    requires t.Array? && ValidType(t) && ValidSum(sum) && sum.constant < SignBit
    ensures best == BestInArray(t, sum, accessed)
    decreases t, 0, 2
  {
    var size := Size(t.element);
    ValidIsSized(t.element);
    BestInArrayIs(t, sum, accessed);
    if Wrap(sum.constant + AccessedSize(accessed)) > Wrap(size * t.count) {
      return NotTraversed(t, sum);
    }
    var unwrapped := UnwrapIndices(sum.indices, size);
    if unwrapped.None? {
      return NotTraversed(t, sum);
    }
    best := ComputeBestUnwrapped(t, sum, unwrapped.value, accessed);
  }

  /** The index of the element is known. */
  method ComputeBestUnwrapped(t: Type, sum: Summation, quotients: seq<Addend>, accessed: Option<Type>)
    returns (best: Replacement)
    requires t.Array? && ValidType(t) && Size(t.element) > 0 && ValidSum(sum) && sum.constant < SignBit
    requires quotients == Quotients(sum.indices[..Large(sum.indices, Size(t.element))], Size(t.element))
    ensures best == BestInElement(t, InArray(t, sum), InElement(sum, Size(t.element)), accessed)
    decreases t, 0, 1
  {
    var size := Size(t.element);
    InElementIsValid(sum, size);
    QuotientFits(sum.constant, size);
    var child := Child(ElementIndex(sum.constant / size, quotients), ArrayStep);
    best := ComputeBestInElement(t, child, InElement(sum, size), accessed);
  }

  /** The fields are visited from the last one that starts within the offset. Once
      the bound has stopped promising an improvement it never promises one again. */
  method ScanFields(t: Type, sum: Summation, accessed: Option<Type>, lowerBound: Score, first: Replacement)
    returns (best: Replacement)
    requires t.Struct? && ValidType(t) && ValidSum(sum) && sum.constant < SignBit
    ensures best == BestInFields(t, sum, accessed, lowerBound, Started(t.fields, sum.constant), first)
    decreases t, 0, 0
  {
    best := first;
    var bestScore := Difference(best, accessed);
    ghost var goal := BestInFields(t, sum, accessed, lowerBound, Started(t.fields, sum.constant), first);
    var degrading := false;
    var i: nat := Started(t.fields, sum.constant);
    while i > 0
      invariant i <= Started(t.fields, sum.constant)
      invariant BestInFields(t, sum, accessed, lowerBound, i, best) == goal
      invariant bestScore == Difference(best, accessed)
      invariant degrading ==> !Better(lowerBound, bestScore)
    {
      i := i - 1;
      var field := t.fields[i];
      assert !degrading || !Better(lowerBound, bestScore);
      if !Better(lowerBound, bestScore) {
        degrading := true;
        continue;
      }
      var result := ComputeBest(field.of, InField(sum, field.offset), accessed);
      result := result.(base := t, path := [Child(Summation(field.offset, []), StructStep)] + result.path);
      var score := Difference(result, accessed);
      if Better(score, bestScore) {
        best, bestScore := result, score;
      }
    }
  }

  /** The search in a struct starts from the path `none`, unless the bound is met already. */
  ghost predicate IsBestOfFields(t: Type, sum: Summation, accessed: Option<Type>, none: Replacement, best: Replacement)
    requires t.Struct? && ValidType(t)
  {
    best == if Settled(none, accessed) then none
            else BestInFields(t, sum, accessed, LowerBound(none, accessed), Started(t.fields, sum.constant), none)
  }

  ghost predicate IsBestInStruct(t: Type, sum: Summation, accessed: Option<Type>, best: Replacement)
    requires t.Struct? && ValidType(t)
  {
    var none := NotTraversed(t, sum);
    if Within(sum, accessed, t.size) then IsBestOfFields(t, sum, accessed, none, best) else best == none
  }

  method ComputeBestInStruct(t: Type, sum: Summation, accessed: Option<Type>) returns (best: Replacement)
    requires t.Struct? && ValidType(t) && ValidSum(sum) && sum.constant < SignBit
    ensures IsBestInStruct(t, sum, accessed, best)
    decreases t, 0, 2
  {
    best := NotTraversed(t, sum);
    if Wrap(sum.constant + AccessedSize(accessed)) > t.size {
      return;
    }
    best := ScanIfPromising(t, sum, accessed, best);
  }

  method ScanIfPromising(t: Type, sum: Summation, accessed: Option<Type>, none: Replacement) returns (best: Replacement)
    requires t.Struct? && ValidType(t) && ValidSum(sum) && sum.constant < SignBit
    ensures IsBestOfFields(t, sum, accessed, none, best)
    decreases t, 0, 1
  {
    best := none;
    var lowerBound := LowerBound(best, accessed);
    if !Better(lowerBound, Difference(best, accessed)) {
      return;
    }
    best := ScanFields(t, sum, accessed, lowerBound, best);
  }

  /** Likewise for a union. */
  ghost predicate IsBestOfMembers(t: Type, sum: Summation, accessed: Option<Type>, none: Replacement, best: Replacement)
    requires t.Union? && ValidType(t)
  {
    best == if Settled(none, accessed) then none
            else BestInMembers(t, sum, accessed, LowerBound(none, accessed), 0, none)
  }

  ghost predicate IsBestInUnion(t: Type, sum: Summation, accessed: Option<Type>, best: Replacement)
    requires t.Union? && ValidType(t)
  {
    var none := NotTraversed(t, sum);
    if Within(sum, accessed, Size(t)) then IsBestOfMembers(t, sum, accessed, none, best) else best == none
  }

  method ComputeBestInUnion(t: Type, sum: Summation, accessed: Option<Type>) returns (best: Replacement)
    requires t.Union? && ValidType(t) && ValidSum(sum) && sum.constant < SignBit
    ensures IsBestInUnion(t, sum, accessed, best)
    decreases t, 0, 2
  {
    best := NotTraversed(t, sum);
    if Wrap(sum.constant + AccessedSize(accessed)) > Size(t) {
      return;
    }
    best := ScanMembersIfPromising(t, sum, accessed, best);
  }

  method ScanMembersIfPromising(t: Type, sum: Summation, accessed: Option<Type>, none: Replacement)
    returns (best: Replacement)
    requires t.Union? && ValidType(t) && ValidSum(sum) && sum.constant < SignBit
    ensures IsBestOfMembers(t, sum, accessed, none, best)
    decreases t, 0, 1
  {
    best := none;
    var lowerBound := LowerBound(best, accessed);
    if !Better(lowerBound, Difference(best, accessed)) {
      return;
    }
    best := ScanMembers(t, sum, accessed, lowerBound, best);
  }

  /** The members are visited in order. */
  method ScanMembers(t: Type, sum: Summation, accessed: Option<Type>, lowerBound: Score, first: Replacement)
    returns (best: Replacement)
    requires t.Union? && ValidType(t) && ValidSum(sum) && sum.constant < SignBit
    ensures best == BestInMembers(t, sum, accessed, lowerBound, 0, first)
    decreases t, 0, 0
  {
    best := first;
    var bestScore := Difference(best, accessed);
    ghost var goal := BestInMembers(t, sum, accessed, lowerBound, 0, best);
    for i := 0 to |t.members|
      invariant BestInMembers(t, sum, accessed, lowerBound, i, best) == goal
      invariant bestScore == Difference(best, accessed)
    {
      if !Better(lowerBound, bestScore) {
        continue;
      }
      var result := ComputeBest(t.members[i], sum, accessed);
      result := result.(base := t, path := [Child(Summation(i, []), UnionStep)] + result.path);
      var score := Difference(result, accessed);
      if Better(score, bestScore) {
        best, bestScore := result, score;
      }
    }
  }

  /** The best path into `t`. */
  method ComputeBest(t: Type, sum: Summation, accessed: Option<Type>) returns (best: Replacement)
    requires ValidType(t) && ValidSum(sum) && sum.constant < SignBit
    ensures best == Best(t, sum, accessed)
    decreases t, 1
  {
    var unwrapped := Unalias(t);
    UnaliasKeeps(t);
    best := NotTraversed(t, sum);
    if unwrapped.Scalar? {
      return;
    }
    var bestScore := Difference(best, accessed);
    if !Better(LowerBound(best, accessed), bestScore) {
      return;
    }
    match unwrapped
    case Array(_, _) =>
      var result := ComputeBestInArray(unwrapped, sum, accessed);
      if Better(Difference(result, accessed), bestScore) {
        best := result;
      }
    case Struct(_, _, _) => best := ComputeBestInStruct(unwrapped, sum, accessed);
    case Union(_, _) => best := ComputeBestInUnion(unwrapped, sum, accessed);
  }
}

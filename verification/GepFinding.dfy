/** What the search for a path finds: whenever the summation can be used up on the way to
    the accessed type, nothing of it is left over and that type is reached. */
module GepFinding {
  import opened Wrappers
  import opened GepArithmetic
  import opened GepSearch

  // ----- Which score wins -----

  /** The type decides first, then how little is left over, then how short the path is. */
  lemma ScoreOrder(a: Score, b: Score)
    ensures a.mismatch.PerfectTypeMatch? && !b.mismatch.PerfectTypeMatch? ==> Better(a, b)
    ensures a.mismatch.SameSize? && (b.mismatch.InRange? || b.mismatch.OutOfBound?) ==> Better(a, b)
    ensures a.mismatch.InRange? && b.mismatch.OutOfBound? ==> Better(a, b)
    ensures a.mismatch == b.mismatch && |a.unmatched.indices| < |b.unmatched.indices| ==> Better(a, b)
    ensures a.mismatch == b.mismatch && a.unmatched.indices == b.unmatched.indices == [] ==>
              (Better(a, b) <==>
               || a.unmatched.constant < b.unmatched.constant
               || (a.unmatched.constant == b.unmatched.constant && a.depth < b.depth))
    ensures (&& a.mismatch == b.mismatch
             && |a.unmatched.indices| == |b.unmatched.indices| > 0
             && a.unmatched.indices[0].coefficient < b.unmatched.indices[0].coefficient) ==> Better(a, b)
  {
  }

  /** The four kinds of a result: something is left over or the access is larger than what the
      path leads to; the types are the same; their sizes are; or the access is smaller, or its
      type not known. */
  lemma MismatchMeans(r: Replacement, accessed: Option<Type>)
    ensures var m := Difference(r, accessed).mismatch;
            && (m.OutOfBound? <==> r.mismatched != Summation(0, []) || AccessedSize(accessed) > Size(r.accessed))
            && (m.PerfectTypeMatch? <==> r.mismatched == Summation(0, []) && accessed == Some(r.accessed))
            && (m.SameSize? <==> (&& r.mismatched == Summation(0, [])
                                  && accessed.Some? && accessed != Some(r.accessed)
                                  && Size(accessed.value) == Size(r.accessed)))
  {
  }

  // ----- Results that cannot be improved -----

  /** Nothing is left over, and the type is the accessed one, where that is known. */
  predicate Ideal(r: Replacement, accessed: Option<Type>) {
    r.mismatched == Summation(0, []) && (accessed.Some? ==> r.accessed == accessed.value)
  }

  function IdealMismatch(accessed: Option<Type>): Mismatch {
    if accessed.Some? then PerfectTypeMatch else InRange
  }

  lemma IdealIsBest(r: Replacement, accessed: Option<Type>)
    ensures Ideal(r, accessed) <==> Difference(r, accessed).mismatch == IdealMismatch(accessed)
    ensures Ideal(r, accessed) ==> Difference(r, accessed).unmatched == Zero
    ensures !Ideal(r, accessed) ==> Rank(Difference(r, accessed).mismatch) > Rank(IdealMismatch(accessed))
  {
  }

  lemma PickIdeal(best: Replacement, other: Replacement, accessed: Option<Type>)
    requires Ideal(best, accessed) || Ideal(other, accessed)
    ensures Ideal(Pick(best, other, accessed), accessed)
  {
    IdealIsBest(best, accessed);
    IdealIsBest(other, accessed);
  }

  /** While the access fits, the bound stops the search only at a result that cannot be
      improved. */
  lemma BoundStops(r: Replacement, accessed: Option<Type>, best: Replacement)
    requires r.mismatched.constant + AccessedSize(accessed) <= Size(r.base) < Modulus
    ensures !Better(LowerBound(r, accessed), Difference(best, accessed)) ==> Ideal(best, accessed)
  {
    assert LowerBound(r, accessed).mismatch == IdealMismatch(accessed);
    IdealIsBest(best, accessed);
  }

  // ----- Summations that can be used up -----

  /** The first `n` coefficients are whole elements of the given size, the others are less
      than one. */
  predicate SplitsAt(indices: seq<Addend>, n: nat, size: nat)
    requires size > 0
  {
    && n <= |indices|
    && (forall i :: 0 <= i < n ==> indices[i].coefficient >= size && indices[i].coefficient % size == 0)
    && (forall i :: n <= i < |indices| ==> indices[i].coefficient < size)
  }

  predicate Inside(t: Type, sum: Summation, accessed: Option<Type>) {
    sum.constant + AccessedSize(accessed) <= Size(t) < Modulus
  }

  /** The type itself, or, for structs and unions, what it stands for. */
  predicate Is(t: Type, goal: Type) {
    t == goal || (Unalias(t) == goal && (goal.Struct? || goal.Union?))
  }

  /** The access lies inside of `t`, and there is a way through elements, fields and members
      to a part of type `goal` that uses up the whole summation. */
  ghost predicate UsedUp(t: Type, sum: Summation, accessed: Option<Type>, goal: Type)
    requires ValidType(t)
    decreases t, 1
  {
    UnaliasKeeps(t);
    && Inside(t, sum, accessed)
    && (|| (Is(t, goal) && sum == Summation(0, []))
        || (Unalias(t).Array? && UsedUpInElement(Unalias(t), sum, accessed, goal))
        || (Unalias(t).Struct? && UsedUpInField(Unalias(t), sum, accessed, goal))
        || (Unalias(t).Union? && UsedUpInMember(Unalias(t), sum, accessed, goal)))
  }

  ghost predicate UsedUpInElement(t: Type, sum: Summation, accessed: Option<Type>, goal: Type)
    requires t.Array? && ValidType(t)
    decreases t, 0
  {
    ValidIsSized(t.element);
    var size := Size(t.element);
    exists n: nat :: (SplitsAt(sum.indices, n, size)
                      && UsedUp(t.element, Summation(sum.constant % size, sum.indices[n..]), accessed, goal))
  }

  ghost predicate UsedUpInField(t: Type, sum: Summation, accessed: Option<Type>, goal: Type)
    requires t.Struct? && ValidType(t)
    decreases t, 0
  {
    exists i :: (0 <= i < |t.fields| && t.fields[i].offset <= sum.constant
                 && UsedUp(t.fields[i].of, InField(sum, t.fields[i].offset), accessed, goal))
  }

  ghost predicate UsedUpInMember(t: Type, sum: Summation, accessed: Option<Type>, goal: Type)
    requires t.Union? && ValidType(t)
    decreases t, 0
  {
    exists i :: 0 <= i < |t.members| && UsedUp(t.members[i], sum, accessed, goal)
  }

  lemma {:induction false} SplitIsLarge(indices: seq<Addend>, n: nat, size: nat)
    requires size > 0 && SplitsAt(indices, n, size)
    ensures Large(indices, size) == n && AllMultiples(indices[..n], size)
  {
    var large := Large(indices, size);
    assert large < |indices| ==> indices[large].coefficient < size;
    assert n < |indices| ==> indices[n].coefficient < size;
  }

  /** Whatever can be used up is used up: nothing is left over, and the accessed type is
      reached. */
  lemma {:induction false} BestUsesUp(t: Type, sum: Summation, accessed: Option<Type>, goal: Type)
    requires ValidType(t) && UsedUp(t, sum, accessed, goal) && (accessed.Some? ==> accessed.value == goal)
    ensures Ideal(Best(t, sum, accessed), accessed)
    decreases t, 1
  {
    var u := Unalias(t);
    UnaliasKeeps(t);
    var none := NotTraversed(t, sum);
    BoundStops(none, accessed, none);
    if t == goal && sum == Summation(0, []) {
      IdealIsSettled(none, accessed);
    } else if u.Array? {
      ArrayUsesUp(u, sum, accessed, goal);
      PickIdeal(none, BestInArray(u, sum, accessed), accessed);
    } else {
      AggregateUsesUp(u, sum, accessed, goal);
    }
  }

  /** Taking no path, or the best path in a struct or a union. */
  function BestInAggregate(t: Type, sum: Summation, accessed: Option<Type>): Replacement
    requires ValidType(t) && (t.Struct? || t.Union?)
  {
    var none := NotTraversed(t, sum);
    var bound := LowerBound(none, accessed);
    if t.Struct? then BestInFields(t, sum, accessed, bound, Started(t.fields, sum.constant), none)
    else BestInMembers(t, sum, accessed, bound, 0, none)
  }

  lemma {:induction false} AggregateUsesUp(t: Type, sum: Summation, accessed: Option<Type>, goal: Type)
    requires ValidType(t) && (t.Struct? || t.Union?) && (accessed.Some? ==> accessed.value == goal)
    requires Inside(t, sum, accessed)
    requires (|| Ideal(NotTraversed(t, sum), accessed)
              || (t.Struct? && UsedUpInField(t, sum, accessed, goal))
              || (t.Union? && UsedUpInMember(t, sum, accessed, goal)))
    ensures Within(sum, accessed, Size(t))
    ensures Ideal(if Settled(NotTraversed(t, sum), accessed) then NotTraversed(t, sum)
                  else BestInAggregate(t, sum, accessed), accessed)
    decreases t, 0, 1
  {
    BoundStops(NotTraversed(t, sum), accessed, NotTraversed(t, sum));
    if Ideal(NotTraversed(t, sum), accessed) {
      IdealIsSettled(NotTraversed(t, sum), accessed);
    } else if t.Struct? { StructUsesUp(t, sum, accessed, goal); } else { UnionUsesUp(t, sum, accessed, goal); }
  }

  lemma {:induction false} IdealIsSettled(none: Replacement, accessed: Option<Type>)
    requires none.path == [] && Ideal(none, accessed)
    requires AccessedSize(accessed) <= Size(none.base) < Modulus
    ensures Settled(none, accessed)
  {
    var s := Difference(none, accessed);
    assert none.mismatched.constant == 0;
    assert LowerBound(none, accessed) == s;
    BetterIsTransitive(s, s, s);
  }

  lemma {:induction false} ArrayUsesUp(t: Type, sum: Summation, accessed: Option<Type>, goal: Type)
    requires t.Array? && ValidType(t) && (accessed.Some? ==> accessed.value == goal)
    requires Inside(t, sum, accessed) && UsedUpInElement(t, sum, accessed, goal)
    ensures Ideal(BestInArray(t, sum, accessed), accessed)
    decreases t, 0, 1
  {
    ValidIsSized(t.element);
    var size := Size(t.element);
    var n: nat :| (SplitsAt(sum.indices, n, size)
                   && UsedUp(t.element, Summation(sum.constant % size, sum.indices[n..]), accessed, goal));
    SplitIsLarge(sum.indices, n, size);
    BestUsesUp(t.element, InElement(sum, size), accessed, goal);
    ElementFinds(t, sum, accessed);
  }

  lemma InsideIsWithin(t: Type, sum: Summation, accessed: Option<Type>)
    requires t.Array? && Inside(t, sum, accessed)
    ensures Within(sum, accessed, Wrap(Size(t.element) * t.count))
  {
  }

  lemma {:induction false} ElementFinds(t: Type, sum: Summation, accessed: Option<Type>)
    requires t.Array? && ValidType(t) && Size(t.element) > 0 && Inside(t, sum, accessed)
    requires AllMultiples(sum.indices[..Large(sum.indices, Size(t.element))], Size(t.element))
    requires Ideal(Best(t.element, InElement(sum, Size(t.element)), accessed), accessed)
    ensures Ideal(BestInArray(t, sum, accessed), accessed)
  {
    var size := Size(t.element);
    InsideIsWithin(t, sum, accessed);
    QuotientFits(sum.constant, size);
    PickFinds(t, InArray(t, sum), InElement(sum, size), accessed);
  }

  lemma {:induction false} PickFinds(t: Type, child: Child, inner: Summation, accessed: Option<Type>)
    requires t.Array? && ValidType(t) && inner.constant + AccessedSize(accessed) <= Size(t) < Modulus
    requires Ideal(Best(t.element, inner, accessed), accessed)
    ensures Ideal(BestInElement(t, child, inner, accessed), accessed)
  {
    var best := Under(t, child, NotTraversed(t.element, inner));
    BoundStops(best, accessed, best);
    PickIdeal(best, Under(t, child, Best(t.element, inner, accessed)), accessed);
  }

  lemma {:induction false} StructUsesUp(t: Type, sum: Summation, accessed: Option<Type>, goal: Type)
    requires t.Struct? && ValidType(t) && (accessed.Some? ==> accessed.value == goal)
    requires Inside(t, sum, accessed) && UsedUpInField(t, sum, accessed, goal)
    ensures Ideal(BestInAggregate(t, sum, accessed), accessed)
    decreases t, 0, 0
  {
    var i :| (0 <= i < |t.fields| && t.fields[i].offset <= sum.constant
              && UsedUp(t.fields[i].of, InField(sum, t.fields[i].offset), accessed, goal));
    BestUsesUp(t.fields[i].of, InField(sum, t.fields[i].offset), accessed, goal);
    var none, started := NotTraversed(t, sum), Started(t.fields, sum.constant);
    assert started < |t.fields| ==> t.fields[started].offset > sum.constant;
    FieldsFind(t, sum, accessed, none, started, none, i);
  }

  /** The loop over the fields keeps an ideal result, and finds that of field `k`. */
  lemma {:induction false} FieldsFind(t: Type, sum: Summation, accessed: Option<Type>, none: Replacement, i: nat,
                                      best: Replacement, k: nat)
    requires t.Struct? && ValidType(t) && i <= Started(t.fields, sum.constant)
    requires none == NotTraversed(t, sum) && Inside(t, sum, accessed)
    requires Ideal(best, accessed)
             || (k < i && Ideal(Best(t.fields[k].of, InField(sum, t.fields[k].offset), accessed), accessed))
    ensures Ideal(BestInFields(t, sum, accessed, LowerBound(none, accessed), i, best), accessed)
    decreases i
  {
    if i > 0 {
      BoundStops(none, accessed, best);
      if !Better(LowerBound(none, accessed), Difference(best, accessed)) {
        FieldsFind(t, sum, accessed, none, i - 1, best, k);
      } else {
        var f := t.fields[i - 1];
        var r := Under(t, Child(Summation(f.offset, []), StructStep), Best(f.of, InField(sum, f.offset), accessed));
        if Ideal(best, accessed) || k == i - 1 { PickIdeal(best, r, accessed); }
        FieldsFind(t, sum, accessed, none, i - 1, Pick(best, r, accessed), k);
      }
    }
  }

  lemma {:induction false} UnionUsesUp(t: Type, sum: Summation, accessed: Option<Type>, goal: Type)
    requires t.Union? && ValidType(t) && (accessed.Some? ==> accessed.value == goal)
    requires Inside(t, sum, accessed) && UsedUpInMember(t, sum, accessed, goal)
    ensures Ideal(BestInAggregate(t, sum, accessed), accessed)
    decreases t, 0, 0
  {
    var i :| 0 <= i < |t.members| && UsedUp(t.members[i], sum, accessed, goal);
    BestUsesUp(t.members[i], sum, accessed, goal);
    MembersFind(t, sum, accessed, NotTraversed(t, sum), 0, NotTraversed(t, sum), i);
  }

  lemma {:induction false} MembersFind(t: Type, sum: Summation, accessed: Option<Type>, none: Replacement, i: nat,
                                       best: Replacement, k: nat)
    requires t.Union? && ValidType(t) && i <= |t.members|
    requires none == NotTraversed(t, sum) && Inside(t, sum, accessed)
    requires Ideal(best, accessed) || (i <= k < |t.members| && Ideal(Best(t.members[k], sum, accessed), accessed))
    ensures Ideal(BestInMembers(t, sum, accessed, LowerBound(none, accessed), i, best), accessed)
    decreases |t.members| - i
  {
    if i < |t.members| {
      BoundStops(none, accessed, best);
      if !Better(LowerBound(none, accessed), Difference(best, accessed)) {
        MembersFind(t, sum, accessed, none, i + 1, best, k);
      } else {
        var r := Under(t, Child(Summation(i, []), UnionStep), Best(t.members[i], sum, accessed));
        if Ideal(best, accessed) || k == i { PickIdeal(best, r, accessed); }
        MembersFind(t, sum, accessed, none, i + 1, Pick(best, r, accessed), k);
      }
    }
  }

  // ----- Paths that take nothing -----

  /** Where there is no path, the whole summation is left over. */
  predicate TakesNothing(sum: Summation, r: Replacement) {
    r.path == [] ==> r.mismatched == sum
  }

  lemma {:induction false} FieldsTake(t: Type, sum: Summation, accessed: Option<Type>, bound: Score, i: nat,
                                      best: Replacement)
    requires t.Struct? && ValidType(t) && i <= Started(t.fields, sum.constant) && TakesNothing(sum, best)
    ensures TakesNothing(sum, BestInFields(t, sum, accessed, bound, i, best))
    decreases i
  {
    if i > 0 {
      if !Better(bound, Difference(best, accessed)) {
        FieldsTake(t, sum, accessed, bound, i - 1, best);
      } else {
        var f := t.fields[i - 1];
        var r := Under(t, Child(Summation(f.offset, []), StructStep), Best(f.of, InField(sum, f.offset), accessed));
        FieldsTake(t, sum, accessed, bound, i - 1, Pick(best, r, accessed));
      }
    }
  }

  lemma {:induction false} MembersTake(t: Type, sum: Summation, accessed: Option<Type>, bound: Score, i: nat,
                                       best: Replacement)
    requires t.Union? && ValidType(t) && i <= |t.members| && TakesNothing(sum, best)
    ensures TakesNothing(sum, BestInMembers(t, sum, accessed, bound, i, best))
    decreases |t.members| - i
  {
    if i < |t.members| {
      if !Better(bound, Difference(best, accessed)) {
        MembersTake(t, sum, accessed, bound, i + 1, best);
      } else {
        var r := Under(t, Child(Summation(i, []), UnionStep), Best(t.members[i], sum, accessed));
        MembersTake(t, sum, accessed, bound, i + 1, Pick(best, r, accessed));
      }
    }
  }

  /** A path into an array starts with the index of the element, and its first step takes
      nothing else. */
  predicate TakesElement(t: Type, sum: Summation, r: Replacement)
    requires t.Array? && Size(t.element) > 0
  {
    var size := Size(t.element);
    if r.path == [] then r.mismatched == sum
    else
      && AllMultiples(sum.indices[..Large(sum.indices, size)], size)
      && r.path[0] == InArray(t, sum)
      && (|r.path| == 1 ==> r.mismatched == InElement(sum, size))
  }

  lemma {:induction false} ElementTakes(t: Type, child: Child, inner: Summation, accessed: Option<Type>)
    requires t.Array? && ValidType(t)
    ensures var r := BestInElement(t, child, inner, accessed);
            r.path != [] && r.path[0] == child && (|r.path| == 1 ==> r.mismatched == inner)
    decreases t, 0, 0
  {
    NoPathTakesNothing(t.element, inner, accessed);
  }

  lemma {:induction false} ArrayTakes(t: Type, sum: Summation, accessed: Option<Type>)
    requires t.Array? && ValidType(t) && Size(t.element) > 0
    ensures TakesElement(t, sum, BestInArray(t, sum, accessed))
    decreases t, 0, 1
  {
    ElementTakes(t, InArray(t, sum), InElement(sum, Size(t.element)), accessed);
  }

  lemma {:induction false} NoPathTakesNothing(t: Type, sum: Summation, accessed: Option<Type>)
    requires ValidType(t)
    ensures TakesNothing(sum, Best(t, sum, accessed))
    decreases t, 1
  {
    var u := Unalias(t);
    UnaliasKeeps(t);
    var none := NotTraversed(u, sum);
    if u.Struct? {
      FieldsTake(u, sum, accessed, LowerBound(none, accessed), Started(u.fields, sum.constant), none);
    } else if u.Union? {
      MembersTake(u, sum, accessed, LowerBound(none, accessed), 0, none);
    } else if u.Array? {
      ValidIsSized(u.element);
      ArrayTakes(u, sum, accessed);
    }
  }

  lemma {:induction false} BestTakesElement(t: Type, sum: Summation, accessed: Option<Type>)
    requires t.Array? && ValidType(t) && Size(t.element) > 0
    ensures TakesElement(t, sum, Best(t, sum, accessed))
  {
    ArrayTakes(t, sum, accessed);
  }

  lemma {:induction false} QuotientsLength(indices: seq<Addend>, size: nat)
    requires size > 0
    ensures |Quotients(indices, size)| == |indices|
  {
    if indices != [] { QuotientsLength(indices[1..], size); }
  }

  /** The index of an element has one addend for each large coefficient. */
  lemma {:induction false} IndexLength(q: nat, large: seq<Addend>, size: nat)
    requires size > 0 && q < SignBit && ValidSum(Summation(0, large)) && AllMultiples(large, size)
    ensures ElementIndex(q, Quotients(large, size)).constant == q
    ensures |ElementIndex(q, Quotients(large, size)).indices| == |large|
  {
    var quotients := Quotients(large, size);
    QuotientsDivide(large, size);
    QuotientsLength(large, size);
    DividedIsValid(size, quotients, large);
    ElementIndexValue(v => 0, q, quotients);
    SortedIsLong(q, quotients);
  }

  /** The index of the first element, and nothing inside of it, is the empty summation. */
  lemma {:induction false} ZeroIndex(t: Type, sum: Summation)
    requires t.Array? && Size(t.element) > 0 && ValidSum(sum) && sum.constant < SignBit
    requires AllMultiples(sum.indices[..Large(sum.indices, Size(t.element))], Size(t.element))
    requires IsZero(InArray(t, sum).index) && IsZero(InElement(sum, Size(t.element)))
    ensures sum == Zero
  {
    var size := Size(t.element);
    QuotientFits(sum.constant, size);
    IndexLength(sum.constant / size, sum.indices[..Large(sum.indices, size)], size);
  }

  lemma {:induction false} SortedIsLong(q: nat, quotients: seq<Addend>)
    requires q < SignBit && (forall i :: 0 <= i < |quotients| ==> quotients[i].coefficient < SignBit)
    ensures |ElementIndex(q, quotients).indices| == |quotients|
  {
    ElementIndexValue(v => 0, q, quotients);
    SortSorts(quotients);
    assert [] + quotients == quotients;
    assert |multiset(Sort(quotients))| == |multiset(quotients)|;
  }

  // ----- Accesses to one part -----

  /** The search ends in a perfect match: the accessed type, with nothing left over. */
  predicate IsPerfect(r: Replacement, goal: Type) {
    Difference(r, Some(goal)).mismatch.PerfectTypeMatch? && r.mismatched == Summation(0, []) && r.accessed == goal
  }

  lemma {:induction false} PerfectWhenUsedUp(t: Type, sum: Summation, goal: Type)
    requires ValidType(t) && UsedUp(t, sum, Some(goal), goal)
    ensures IsPerfect(Best(t, sum, Some(goal)), goal)
  {
    BestUsesUp(t, sum, Some(goal), goal);
    IdealIsBest(Best(t, sum, Some(goal)), Some(goal));
  }

  /** An access to a field, at its offset, finds it. */
  lemma {:induction false} FieldIsFound(t: Type, i: nat)
    requires t.Struct? && ValidType(t) && i < |t.fields| && t.size < Modulus
    requires t.fields[i].offset + Size(t.fields[i].of) <= t.size
    ensures IsPerfect(Best(t, Summation(t.fields[i].offset, []), Some(t.fields[i].of)), t.fields[i].of)
  {
    var f := t.fields[i];
    var sum := Summation(f.offset, []);
    assert UsedUp(f.of, InField(sum, f.offset), Some(f.of), f.of);
    PerfectWhenUsedUp(t, sum, f.of);
  }

  /** An access to a union as one of its members finds that member. */
  lemma {:induction false} MemberIsFound(t: Type, i: nat)
    requires t.Union? && ValidType(t) && i < |t.members| && Size(t.members[i]) <= Size(t) < Modulus
    ensures IsPerfect(Best(t, Summation(0, []), Some(t.members[i])), t.members[i])
  {
    assert UsedUp(t.members[i], Summation(0, []), Some(t.members[i]), t.members[i]);
    PerfectWhenUsedUp(t, Summation(0, []), t.members[i]);
  }

  /** An access that steps through an array by whole elements, however many indices it has,
      finds the element. */
  lemma {:induction false} ElementIsFound(t: Type, sum: Summation)
    requires t.Array? && ValidType(t) && sum.constant + Size(t.element) <= Size(t) < Modulus
    requires Size(t.element) > 0 && sum.constant % Size(t.element) == 0
    requires SplitsAt(sum.indices, |sum.indices|, Size(t.element))
    ensures IsPerfect(Best(t, sum, Some(t.element)), t.element)
  {
    var size, goal := Size(t.element), Some(t.element);
    assert sum.indices[|sum.indices|..] == [];
    assert UsedUp(t.element, Summation(sum.constant % size, sum.indices[|sum.indices|..]), goal, t.element);
    PerfectWhenUsedUp(t, sum, t.element);
  }

  // ----- The shortest path is not always found -----

  /** A score that is perfect is decided by the length of the path alone. */
  lemma PerfectScore(r: Replacement, goal: Type)
    requires IsPerfect(r, goal)
    ensures Difference(r, Some(goal)) == Score(PerfectTypeMatch, Zero, |r.path|)
  {
  }

  /** An array of the accessed type takes all indices in one step. */
  lemma {:induction false} ArrayTakesAll(t: Type, sum: Summation, accessed: Option<Type>)
    requires t.Array? && ValidType(t) && 0 < Size(t.element) <= Size(t) < Modulus && accessed == Some(t.element)
    requires sum.constant == 0 && sum.indices != [] && SplitsAt(sum.indices, |sum.indices|, Size(t.element))
    ensures |Best(t, sum, accessed).path| == 1 && IsPerfect(Best(t, sum, accessed), t.element)
  {
    var size := Size(t.element);
    var none, first := NotTraversed(t, sum), Under(t, InArray(t, sum), NotTraversed(t.element, Zero));
    SplitIsLarge(sum.indices, |sum.indices|, size);
    assert InElement(sum, size) == Zero;
    InsideIsWithin(t, sum, accessed);
    BoundStops(first, accessed, first);
    var s := Difference(first, accessed);
    BetterIsTransitive(s, s, s);
    assert BestInArray(t, sum, accessed) == first;
    assert Best(t, sum, accessed) == first;
  }

  /** A struct that holds nothing but such an array takes one step more. */
  lemma {:induction false} StructTakesAll(t: Type, sum: Summation, accessed: Option<Type>)
    requires t.Struct? && ValidType(t) && Size(t) < Modulus && |t.fields| == 1 && t.fields[0].offset == 0
    requires sum.constant + AccessedSize(accessed) <= Size(t) && sum.indices != [] && accessed.Some?
    requires var r := Best(t.fields[0].of, sum, accessed); |r.path| == 1 && IsPerfect(r, accessed.value)
    ensures |Best(t, sum, accessed).path| == 2 && IsPerfect(Best(t, sum, accessed), accessed.value)
  {
    var none := NotTraversed(t, sum);
    var r := Under(t, Child(Summation(0, []), StructStep), Best(t.fields[0].of, sum, accessed));
    assert InField(sum, 0) == sum;
    var bound := LowerBound(none, accessed);
    BoundStops(none, accessed, none);
    assert Started(t.fields[1..], sum.constant) == 0;
    assert Started(t.fields, sum.constant) == 1;
    assert BestInFields(t, sum, accessed, bound, 0, r) == r;
    assert Pick(none, r, accessed) == r;
    assert BestInFields(t, sum, accessed, bound, 1, none) == r;
  }

  /** In a union the first member stops the search although the second one is nearer: the
      bound counts a level for each of the three indices. */
  lemma {:induction false} FirstMemberWins(t: Type, sum: Summation, accessed: Option<Type>)
    requires t.Union? && ValidType(t) && Size(t) < Modulus && |t.members| == 2
    requires sum.constant == 0 && |sum.indices| == 3 && accessed.Some? && AccessedSize(accessed) <= Size(t)
    requires var r := Best(t.members[0], sum, accessed); |r.path| == 2 && IsPerfect(r, accessed.value)
    ensures |Best(t, sum, accessed).path| == 3 && IsPerfect(Best(t, sum, accessed), accessed.value)
  {
    var none := NotTraversed(t, sum);
    var r := Under(t, Child(Summation(0, []), UnionStep), Best(t.members[0], sum, accessed));
    var bound := LowerBound(none, accessed);
    BoundStops(none, accessed, none);
    PerfectScore(r, accessed.value);
    assert bound == Score(PerfectTypeMatch, Zero, 3);
    BetterIsTransitive(bound, bound, bound);
    assert BestInMembers(t, sum, accessed, bound, 2, r) == r;
    assert BestInMembers(t, sum, accessed, bound, 1, r) == r;
    assert Pick(none, r, accessed) == r;
    assert BestInMembers(t, sum, accessed, bound, 0, none) == r;
  }

  lemma {:induction false} SecondMemberIsNearer(t: Type, sum: Summation, accessed: Option<Type>)
    requires t.Union? && ValidType(t) && |t.members| == 2 && ValidSum(sum) && sum.constant == 0 && accessed.Some?
    requires var r := Best(t.members[1], sum, accessed); |r.path| == 1 && IsPerfect(r, accessed.value)
    requires |Best(t, sum, accessed).path| == 3 && IsPerfect(Best(t, sum, accessed), accessed.value)
    ensures exists r :: (&& Explains(t, sum, accessed, r)
                         && Better(Difference(r, accessed), Difference(Best(t, sum, accessed), accessed)))
  {
    var r := Best(t.members[1], sum, accessed);
    var under := Under(t, Child(Summation(1, []), UnionStep), r);
    BestFits(t.members[1], sum, accessed);
    IntoMember(t, sum, accessed, 1, r);
    PerfectScore(under, accessed.value);
    PerfectScore(Best(t, sum, accessed), accessed.value);
    assert Explains(t, sum, accessed, under);
  }

  /** A union of an array and, in front of it, a struct that holds the same array. */
  predicate Detour(t: Type, goal: Type) {
    && t.Union? && |t.members| == 2 && ValidType(t) && Size(t) < Modulus
    && t.members[0].Struct? && t.members[1].Array? && t.members[0].fields == [Field(0, t.members[1])]
    && t.members[1].element == goal && 0 < Size(goal) <= Size(t.members[1]) <= Size(t.members[0]) <= Size(t)
  }

  /** So the search does not always end in the best score of all paths: three indices that step
      by whole elements lead it through the struct. */
  lemma {:induction false} NotTheShortest(t: Type, sum: Summation, goal: Type)
    requires Detour(t, goal) && ValidSum(sum) && sum.constant == 0
    requires |sum.indices| == 3 && SplitsAt(sum.indices, 3, Size(goal))
    ensures exists r :: (&& Explains(t, sum, Some(goal), r)
                         && Better(Difference(r, Some(goal)), Difference(Best(t, sum, Some(goal)), Some(goal))))
  {
    ArrayTakesAll(t.members[1], sum, Some(goal));
    assert t.members[0].fields[0] == Field(0, t.members[1]);
    StructTakesAll(t.members[0], sum, Some(goal));
    FirstMemberWins(t, sum, Some(goal));
    SecondMemberIsNearer(t, sum, Some(goal));
  }

  lemma {:induction false} DetourExists()
    ensures var pair := Array(Scalar(1, 4), 2);
            Detour(Union(3, [Struct(2, 8, [Field(0, pair)]), pair]), Scalar(1, 4))
  {
    var pair := Array(Scalar(1, 4), 2);
    var members := [Struct(2, 8, [Field(0, pair)]), pair];
    assert members[1..] == [pair] && [pair][1..] == [];
    assert Size(pair) == 8 && LargestSize([]) == 0;
    assert LargestSize([pair]) == 8;
    assert Size(members[0]) == 8 && LargestSize(members) == 8;
    assert ValidType(pair) && ValidType(members[0]);
    assert Size(Union(3, members)) == 8 && ValidType(Union(3, members));
  }
}

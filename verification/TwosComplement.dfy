/** Moving the constant of an addition or subtraction to the other side of a
    comparison, under wrapping arithmetic of any bit width. */
module TwosComplement {
  import opened Numbers

  // ----- Fixed-width arithmetic -----

  /** Half the modulus of a `w`-bit integer, the first negative value. */
  function Half(w: nat): (h: nat)
    requires w > 0
    ensures h >= 1 && Pow2(w) == 2 * h
  {
    Pow2(w - 1)
  }

  function AddW(w: nat, x: nat, y: nat): (r: nat)
    requires w > 0 && x < Pow2(w) && y < Pow2(w)
    ensures r < Pow2(w)
  {
    if x + y < Pow2(w) then x + y else x + y - Pow2(w)
  }

  function SubW(w: nat, x: nat, y: nat): (r: nat)
    requires w > 0 && x < Pow2(w) && y < Pow2(w)
    ensures r < Pow2(w)
  {
    if x >= y then x - y else x - y + Pow2(w)
  }

  /** These are addition and subtraction modulo the width. */
  lemma WrapsAround(w: nat, x: nat, y: nat)
    requires w > 0 && x < Pow2(w) && y < Pow2(w)
    ensures AddW(w, x, y) == (x + y) % Pow2(w)
    ensures SubW(w, x, y) == (x - y) % Pow2(w)
  {
    var m := Pow2(w);
    if x + y < m { ModIs(x + y, m, 0, x + y); } else { ModIs(x + y, m, 1, x + y - m); }
    if x >= y { ModIs(x - y, m, 0, x - y); } else { ModIs(x - y, m, -1, x - y + m); }
  }

  lemma ModIs(z: int, m: int, q: int, r: int)
    requires m > 0 && z == q * m + r && 0 <= r < m
    ensures z % m == r
  {
    var q', r' := z / m, z % m;
    assert z == q' * m + r' && 0 <= r' < m;
    assert (q - q') * m == r' - r;
    Distributes(q, q', m);
    Distributes(q', q, m);
    if q > q' {
      MultipleIsLarge(q - q', m);
    } else if q < q' {
      MultipleIsLarge(q' - q, m);
    }
  }

  lemma Distributes(a: int, b: int, m: int)
    ensures (a - b) * m == a * m - b * m
  {
  }

  lemma MultipleIsLarge(k: int, m: int)
    requires k >= 1 && m > 0
    ensures k * m >= m
  {
    assert (k - 1) * m >= 0;
  }

  function Signed(w: nat, x: nat): int
    requires w > 0 && x < Pow2(w)
  {
    if x >= Half(w) then x - Pow2(w) else x
  }

  datatype Relation = GT | GE | LT | LE

  datatype Predicate = Equal | NotEqual | Relational(signed: bool, rel: Relation)

  predicate Holds(rel: Relation, a: int, b: int) {
    match rel
    case GT => a > b
    case GE => a >= b
    case LT => a < b
    case LE => a <= b
  }

  predicate Compare(w: nat, p: Predicate, x: nat, y: nat)
    requires w > 0 && x < Pow2(w) && y < Pow2(w)
  {
    match p
    case Equal => x == y
    case NotEqual => x != y
    case Relational(signed, rel) =>
      if signed then Holds(rel, Signed(w, x), Signed(w, y)) else Holds(rel, x, y)
  }

  function Inverse(rel: Relation): Relation {
    match rel
    case GT => LE
    case GE => LT
    case LT => GE
    case LE => GT
  }

  function Strict(rel: Relation): Relation {
    match rel
    case GT => GT
    case GE => GT
    case LT => LT
    case LE => LT
  }

  // ----- The rewrite of one comparison -----

  /** `X + R` or `X - R`. */
  function Shift(w: nat, isAdd: bool, x: nat, r: nat): (s: nat)
    requires w > 0 && x < Pow2(w) && r < Pow2(w)
    ensures s < Pow2(w)
  {
    if isAdd then AddW(w, x, r) else SubW(w, x, r)
  }

  function MinValue(w: nat, signed: bool): (v: nat)
    requires w > 0
    ensures v < Pow2(w)
  {
    if signed then Half(w) else 0
  }

  function MaxValue(w: nat, signed: bool): (v: nat)
    requires w > 0
    ensures v < Pow2(w)
  {
    if signed then Half(w) - 1 else Pow2(w) - 1
  }

  /** The comparison that guards against wrapping, and how it is joined. */
  datatype Wrap = Wrap(pred: Predicate, rhs: nat, isAnd: bool)

  function NewRhs(w: nat, isAdd: bool, r: nat, c: nat): (s: nat)
    requires w > 0 && r < Pow2(w) && c < Pow2(w)
    ensures s < Pow2(w)
  {
    Shift(w, !isAdd, c, r)
  }

  function Wrapping(w: nat, signed: bool, rel: Relation, isAdd: bool, r: nat, c: nat): (s: Wrap)
    requires w > 0 && r < Pow2(w) && c < Pow2(w)
    ensures s.rhs < Pow2(w)
  {
    var wrapRel := Strict(Inverse(rel));
    var intersectsAfterWrap := Compare(w, Relational(signed, LE), c, Shift(w, isAdd, MaxValue(w, signed), r));
    var lastBeforeWrap := Shift(w, !isAdd, MaxValue(w, signed), r);
    var firstAfterWrap := Shift(w, !isAdd, MinValue(w, signed), r);
    Wrap(Relational(signed, wrapRel), if wrapRel == GT then lastBeforeWrap else firstAfterWrap,
         intersectsAfterWrap == (wrapRel == GT))
  }

  /** What the generated comparisons compute for `x`. */
  predicate Rewritten(w: nat, p: Predicate, isAdd: bool, r: nat, c: nat, x: nat)
    requires w > 0 && r < Pow2(w) && c < Pow2(w) && x < Pow2(w)
  {
    var main := Compare(w, p, x, NewRhs(w, isAdd, r, c));
    if p.Relational? then
      var wrap := Wrapping(w, p.signed, p.rel, isAdd, r, c);
      var guard := Compare(w, wrap.pred, x, wrap.rhs);
      if wrap.isAnd then main && guard else main || guard
    else main
  }

  /** For every width, predicate, operation, constants and value: the rewritten
      formula equals the comparison of the wrapped sum, provided the constant that
      moves is not zero. */
  lemma RewriteCorrect(w: nat, p: Predicate, isAdd: bool, r: nat, c: nat, x: nat)
    requires w > 0 && 0 < r < Pow2(w) && c < Pow2(w) && x < Pow2(w)
    ensures Compare(w, p, Shift(w, isAdd, x, r), c) == Rewritten(w, p, isAdd, r, c, x)
  {
    if p.Relational? {
      if p.signed { SignedRewrite(w, p.rel, isAdd, r, c, x); } else { UnsignedRewrite(w, p.rel, isAdd, r, c, x); }
    }
  }

  lemma UnsignedRewrite(w: nat, rel: Relation, isAdd: bool, r: nat, c: nat, x: nat)
    requires w > 0 && 0 < r < Pow2(w) && c < Pow2(w) && x < Pow2(w)
    ensures var p := Relational(false, rel);
            Compare(w, p, Shift(w, isAdd, x, r), c) == Rewritten(w, p, isAdd, r, c, x)
  {
  }

  /** Flipping the top bit turns the signed order into the unsigned one. */
  function Bias(w: nat, x: nat): (b: nat)
    requires w > 0 && x < Pow2(w)
    ensures b < Pow2(w)
  {
    if x < Half(w) then x + Half(w) else x - Half(w)
  }

  lemma BiasCompares(w: nat, rel: Relation, x: nat, y: nat)
    requires w > 0 && x < Pow2(w) && y < Pow2(w)
    ensures Compare(w, Relational(true, rel), x, y) == Compare(w, Relational(false, rel), Bias(w, x), Bias(w, y))
  {
  }

  lemma BiasShifts(w: nat, isAdd: bool, x: nat, r: nat)
    requires w > 0 && x < Pow2(w) && r < Pow2(w)
    ensures Bias(w, Shift(w, isAdd, x, r)) == Shift(w, isAdd, Bias(w, x), r)
  {
  }

  lemma SignedRewrite(w: nat, rel: Relation, isAdd: bool, r: nat, c: nat, x: nat)
    requires w > 0 && 0 < r < Pow2(w) && c < Pow2(w) && x < Pow2(w)
    ensures var p := Relational(true, rel);
            Compare(w, p, Shift(w, isAdd, x, r), c) == Rewritten(w, p, isAdd, r, c, x)
  {
    var max, min := MaxValue(w, true), MinValue(w, true);
    assert Bias(w, max) == MaxValue(w, false) && Bias(w, min) == MinValue(w, false);
    BiasShifts(w, isAdd, x, r);
    BiasShifts(w, !isAdd, c, r);
    BiasShifts(w, isAdd, max, r);
    BiasShifts(w, !isAdd, max, r);
    BiasShifts(w, !isAdd, min, r);
    BiasCompares(w, rel, Shift(w, isAdd, x, r), c);
    BiasCompares(w, rel, x, NewRhs(w, isAdd, r, c));
    BiasCompares(w, LE, c, Shift(w, isAdd, max, r));
    var s, u := Wrapping(w, true, rel, isAdd, r, c), Wrapping(w, false, rel, isAdd, r, Bias(w, c));
    assert s.isAnd == u.isAnd && Bias(w, s.rhs) == u.rhs;
    BiasCompares(w, s.pred.rel, x, s.rhs);
    UnsignedRewrite(w, rel, isAdd, r, Bias(w, c), Bias(w, x));
  }

  /** The moved constant is not zero, or the predicate is an equality or a lower bound, or
      it is the comparison `< min` that never holds. */
  predicate MayMove(w: nat, p: Predicate, r: nat, c: nat)
    requires w > 0
  {
    r != 0 || !p.Relational? || p.rel.GT? || p.rel.GE? || (p.rel.LT? && c == MinValue(w, p.signed))
  }

  /** The rewrite is right about every value of `x` exactly where the constant may move. */
  lemma RewriteCorrectIff(w: nat, p: Predicate, isAdd: bool, r: nat, c: nat)
    requires w > 0 && r < Pow2(w) && c < Pow2(w)
    ensures (forall x: nat :: x < Pow2(w) ==>
               Compare(w, p, Shift(w, isAdd, x, r), c) == Rewritten(w, p, isAdd, r, c, x))
       <==> MayMove(w, p, r, c)
  {
    if r != 0 {
      forall x: nat | x < Pow2(w)
        ensures Compare(w, p, Shift(w, isAdd, x, r), c) == Rewritten(w, p, isAdd, r, c, x)
      {
        RewriteCorrect(w, p, isAdd, r, c, x);
      }
    } else if p.Relational? {
      var min := MinValue(w, p.signed);
      assert Rewritten(w, p, isAdd, r, c, min) == (Compare(w, p, min, c) && !(p.rel.LT? || p.rel.LE?));
    }
  }

  /** Adding a negative constant is subtracting its opposite, and conversely. */
  lemma NegativeConstant(w: nat, x: nat, r: nat)
    requires w > 0 && x < Pow2(w) && 0 < r < Pow2(w)
    ensures AddW(w, x, r) == SubW(w, x, Pow2(w) - r)
    ensures SubW(w, x, r) == AddW(w, x, Pow2(w) - r)
  {
  }
}

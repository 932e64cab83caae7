/** Returning several registers as one integer: the callee packs them with shifts and
    ors, every caller extracts the field it needs. */
module ReturnPacking {
  import opened Numbers

  /** Bitwise or. */
  function Or(a: nat, b: nat): nat
    decreases a + b
  {
    if a == 0 then b
    else if b == 0 then a
    else (if a % 2 == 1 || b % 2 == 1 then 1 else 0) + 2 * Or(a / 2, b / 2)
  }

  /** Or of values without common bits is addition. */
  lemma {:induction false} OrIsSum(a: nat, high: nat, s: nat)
    requires a < Pow2(s)
    ensures Or(a, high * Pow2(s)) == a + high * Pow2(s)
    decreases s
  {
    if a > 0 && high * Pow2(s) > 0 {
      assert s > 0;
      var h := high * Pow2(s - 1);
      Twice(high, Pow2(s - 1));
      assert high * Pow2(s) == 2 * h;
      OrIsSum(a / 2, high, s - 1);
    }
  }

  lemma Twice(a: nat, b: nat)
    ensures a * (2 * b) == 2 * (a * b)
  {
  }

  lemma QuotientIsNat(x: nat, m: nat)
    requires m > 0
    ensures x / m >= 0
  {
  }

  // ----- Instructions on integers of a given width -----

  function Trunc(width: nat, x: nat): nat {
    x % Pow2(width)
  }

  function Shl(width: nat, x: nat, amount: nat): nat {
    Trunc(width, x * Pow2(amount))
  }

  function LShr(x: nat, amount: nat): nat {
    var m := Pow2(amount);
    QuotientIsNat(x, m);
    x / m
  }

  /** A register with its width in bits. */
  datatype Field = Field(width: nat, value: nat)

  predicate ValidField(f: Field) {
    f.width > 0 && f.value < Pow2(f.width)
  }

  function BitOffset(fields: seq<Field>): nat {
    if fields == [] then 0 else BitOffset(fields[..|fields| - 1]) + fields[|fields| - 1].width
  }

  lemma {:induction false} BitOffsetGrows(fields: seq<Field>, i: nat)
    requires i <= |fields|
    ensures BitOffset(fields[..i]) <= BitOffset(fields)
    decreases |fields|
  {
    if i < |fields| {
      assert fields[..|fields| - 1][..i] == fields[..i];
      BitOffsetGrows(fields[..|fields| - 1], i);
    } else {
      assert fields[..i] == fields;
    }
  }

  /** The fields next to each other, the first in the low bits. */
  function Packed(fields: seq<Field>): nat {
    if fields == [] then 0
    else Packed(fields[..|fields| - 1]) + fields[|fields| - 1].value * Pow2(BitOffset(fields[..|fields| - 1]))
  }

  lemma {:induction false} PackedFits(fields: seq<Field>)
    requires forall i :: 0 <= i < |fields| ==> ValidField(fields[i])
    ensures Packed(fields) < Pow2(BitOffset(fields))
    decreases |fields|
  {
    if fields != [] {
      var init, last := fields[..|fields| - 1], fields[|fields| - 1];
      PackedFits(init);
      Pow2Add(last.width, BitOffset(init));
      AppendFits(Packed(init), last.value, Pow2(BitOffset(init)), Pow2(last.width));
    }
  }

  lemma AppendFits(low: nat, high: nat, m: nat, n: nat)
    requires low < m && high < n
    ensures low + high * m < n * m
  {
    assert (n - high - 1) * m >= 0;
    assert n * m == high * m + m + (n - high - 1) * m;
  }

  /** What the callee returns. */
  method Pack(fields: seq<Field>, width: nat) returns (accumulator: nat)
    requires forall i :: 0 <= i < |fields| ==> ValidField(fields[i])
    requires BitOffset(fields) <= width
    ensures accumulator == Packed(fields) < Pow2(width)
  {
    accumulator := 0;
    var shiftAmount := 0;
    for i := 0 to |fields|
      invariant accumulator == Packed(fields[..i])
      invariant shiftAmount == BitOffset(fields[..i])
    {
      assert fields[..i + 1][..i] == fields[..i];
      var extended := Trunc(width, fields[i].value);
      PackOne(fields, width, i);
      accumulator := Or(accumulator, Shl(width, extended, shiftAmount));
      shiftAmount := shiftAmount + fields[i].width;
    }
    assert fields[..|fields|] == fields;
    PackedFits(fields);
    Pow2Grows(BitOffset(fields), width);
  }

  /** Neither the extension nor the shift loses a bit of the field. */
  lemma {:induction false} PackOne(fields: seq<Field>, width: nat, i: nat)
    requires i < |fields| && forall i :: 0 <= i < |fields| ==> ValidField(fields[i])
    requires BitOffset(fields) <= width
    ensures var low, f := fields[..i], fields[i];
            Or(Packed(low), Shl(width, Trunc(width, f.value), BitOffset(low)))
            == Packed(low) + f.value * Pow2(BitOffset(low))
  {
    var low, f := fields[..i], fields[i];
    assert fields[..i + 1][..i] == low;
    BitOffsetGrows(fields, i + 1);
    ShiftFits(f, BitOffset(low), width);
    PackedFits(low);
    OrIsSum(Packed(low), f.value, BitOffset(low));
  }

  lemma {:induction false} ShiftFits(f: Field, s: nat, width: nat)
    requires ValidField(f) && s + f.width <= width
    ensures Shl(width, Trunc(width, f.value), s) == f.value * Pow2(s)
  {
    Pow2Grows(f.width, width);
    Small(f.value, Pow2(width));
    ProductFits(f, s, width);
    Small(f.value * Pow2(s), Pow2(width));
  }

  lemma {:induction false} ProductFits(f: Field, s: nat, width: nat)
    requires ValidField(f) && s + f.width <= width
    ensures f.value * Pow2(s) < Pow2(width)
  {
    Pow2Add(f.width, s);
    Pow2Grows(f.width + s, width);
    AppendFits(0, f.value, Pow2(s), Pow2(f.width));
  }

  lemma Small(x: nat, m: nat)
    requires x < m
    ensures x % m == x
  {
  }

  method GetBitOffsetAt(fields: seq<Field>, target: nat) returns (r: nat)
    requires target <= |fields|
    ensures r == BitOffset(fields[..target])
  {
    r := 0;
    for i := 0 to target
      invariant r == BitOffset(fields[..i])
    {
      assert fields[..i + 1][..i] == fields[..i];
      r := r + fields[i].width;
    }
  }

  /** What a caller extracts. */
  method Unpack(packed: nat, fields: seq<Field>, index: nat) returns (value: nat)
    requires index < |fields|
    ensures value == Trunc(fields[index].width, LShr(packed, BitOffset(fields[..index])))
  {
    var shiftAmount := GetBitOffsetAt(fields, index);
    value := Trunc(fields[index].width, LShr(packed, shiftAmount));
  }

  /** Every field of every list comes back unchanged. */
  lemma {:induction false} UnpackPacked(fields: seq<Field>, i: nat)
    requires i < |fields| && forall i :: 0 <= i < |fields| ==> ValidField(fields[i])
    ensures Trunc(fields[i].width, LShr(Packed(fields), BitOffset(fields[..i]))) == fields[i].value
    decreases |fields|
  {
    var high := Above(fields, i);
    var s, f := BitOffset(fields[..i]), fields[i];
    PackedSplits(fields, i);
    PackedFits(fields[..i]);
    assert Packed(fields) == Packed(fields[..i]) + (f.value + high * Pow2(f.width)) * Pow2(s);
    Divide(Packed(fields[..i]), f.value + high * Pow2(f.width), Pow2(s));
    Modulo(f.value, high, Pow2(f.width));
  }

  /** The fields behind position `i`, packed. */
  function Above(fields: seq<Field>, i: nat): nat
    requires i < |fields|
  {
    if i == |fields| - 1 then 0
    else
      var init := fields[..|fields| - 1];
      Above(init, i) + fields[|fields| - 1].value * Pow2(Distance(init, i))
  }

  /** The number of bits behind field `i`. */
  function Distance(fields: seq<Field>, i: nat): nat
    requires i < |fields|
  {
    if i == |fields| - 1 then 0 else Distance(fields[..|fields| - 1], i) + fields[|fields| - 1].width
  }

  lemma {:induction false} DistanceIs(fields: seq<Field>, i: nat)
    requires i < |fields|
    ensures BitOffset(fields) == BitOffset(fields[..i]) + fields[i].width + Distance(fields, i)
    decreases |fields|
  {
    var init := fields[..|fields| - 1];
    if i < |fields| - 1 {
      assert init[..i] == fields[..i];
      DistanceIs(init, i);
    }
  }

  lemma {:induction false} PackedSplits(fields: seq<Field>, i: nat)
    requires i < |fields|
    ensures var f := fields[i];
            Packed(fields)
            == Packed(fields[..i]) + (f.value + Above(fields, i) * Pow2(f.width)) * Pow2(BitOffset(fields[..i]))
    decreases |fields|
  {
    var init, last := fields[..|fields| - 1], fields[|fields| - 1];
    if i < |fields| - 1 {
      var f, s := fields[i], BitOffset(fields[..i]);
      assert init[..i] == fields[..i];
      PackedSplits(init, i);
      DistanceIs(init, i);
      Pow2Add(s, f.width + Distance(init, i));
      Pow2Add(f.width, Distance(init, i));
      Regroup(f.value, Above(init, i), last.value, Pow2(f.width), Pow2(Distance(init, i)), Pow2(s));
    }
  }

  lemma Regroup(v: nat, above: nat, last: nat, w: nat, d: nat, s: nat)
    ensures (v + above * w) * s + last * (s * (w * d)) == (v + (above + last * d) * w) * s
  {
    assert last * (s * (w * d)) == (last * d * w) * s by {
      assert s * (w * d) == (w * d) * s;
      assert last * ((w * d) * s) == (last * (w * d)) * s;
      assert last * (w * d) == (last * d) * w;
    }
    assert (above + last * d) * w == above * w + last * d * w;
    assert (v + (above * w + last * d * w)) * s == (v + above * w) * s + (last * d * w) * s;
  }

  lemma Divide(low: nat, high: nat, m: nat)
    requires low < m
    ensures (low + high * m) / m == high
  {
    DivideBounds(low + high * m, high, m);
  }

  lemma DivideBounds(x: nat, q: nat, m: nat)
    requires m > 0 && q * m <= x < q * m + m
    ensures x / m == q
  {
    var p := x / m;
    assert x == p * m + x % m;
    if p < q { Farther(p, q, m); } else if p > q { Farther(q, p, m); }
  }

  lemma Farther(p: nat, q: nat, m: nat)
    requires p < q
    ensures q * m >= p * m + m
  {
    assert q * m == p * m + m + (q - p - 1) * m;
    assert (q - p - 1) * m >= 0;
  }

  lemma Modulo(low: nat, high: nat, m: nat)
    requires low < m
    ensures (low + high * m) % m == low
  {
    Divide(low, high, m);
    var x := low + high * m;
    assert x == (x / m) * m + x % m;
  }

  /** The round trip through callee and caller. */
  method RoundTrip(fields: seq<Field>, width: nat, index: nat) returns (value: nat)
    requires forall i :: 0 <= i < |fields| ==> ValidField(fields[i])
    requires BitOffset(fields) <= width && index < |fields|
    ensures value == fields[index].value
  {
    var packed := Pack(fields, width);
    UnpackPacked(fields, index);
    value := Unpack(packed, fields, index);
  }
}

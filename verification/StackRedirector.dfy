/** The index of the stack arguments of a function: which argument an access to the
    stack falls into, and where in it. */
module StackRedirector {
  import opened Wrappers

  const Int64Max: int := 0x7FFF_FFFF_FFFF_FFFF

  type Int64 = x: int | -0x8000_0000_0000_0000 <= x <= 0x7FFF_FFFF_FFFF_FFFF

  type UInt64 = x: int | 0 <= x <= 0xFFFF_FFFF_FFFF_FFFF

  type SpanSize = x: int | 0 <= x <= 0x7FFF_FFFF_FFFF_FFFF

  /** A span of the stack with the address that replaces its start. */
  datatype Span = Span(start: Int64, size: SpanSize, base: nat)

  datatype NewBase = NewBase(delta: nat, base: nat)

  /** The sum of a signed and an unsigned number, converted back to a signed one. */
  function AddOffset(x: Int64, y: UInt64): Int64 {
    var sum := (x + y) % 0x1_0000_0000_0000_0000;
    if sum > Int64Max then sum - 0x1_0000_0000_0000_0000 else sum
  }

  /** An addition that reports overflow. */
  function OverflowSafe(x: Int64, y: UInt64): Option<Int64> {
    if x + y > Int64Max then None else Some(x + y)
  }

  function End(s: Span): int {
    s.start + s.size
  }

  predicate Sorted(spans: seq<Span>) {
    forall i, j :: 0 <= i < j < |spans| ==> spans[i].start < spans[j].start
  }

  /** `verify`: no span reaches into the next one. */
  predicate Verified(spans: seq<Span>) {
    forall i :: 0 <= i < |spans| - 1 ==> End(spans[i]) <= spans[i + 1].start
  }

  /** Checking neighbours is enough to know that no two spans overlap. */
  lemma {:induction false} NoOverlap(spans: seq<Span>, i: nat, j: nat)
    requires Sorted(spans) && Verified(spans) && i < j < |spans|
    ensures End(spans[i]) <= spans[j].start
    decreases j
  {
    if i < j - 1 {
      NoOverlap(spans, i, j - 1);
      assert spans[j - 1].start < spans[j].start;
    } else {
      assert End(spans[i]) <= spans[i + 1].start;
    }
  }

  predicate Apart(s: Span, t: Span) {
    s.start != t.start && if s.start < t.start then End(s) <= t.start else End(t) <= s.start
  }

  /** The access lies in the span. */
  predicate Contains(s: Span, offset: Int64, size: UInt64) {
    s.start <= offset < End(s) && offset + size <= End(s) && End(s) <= Int64Max
  }

  /** Two spans never contain the same access. */
  lemma {:induction false} ContainerIsUnique(spans: seq<Span>, i: nat, j: nat, offset: Int64, size: UInt64)
    requires Sorted(spans) && Verified(spans) && i < |spans| && j < |spans|
    requires Contains(spans[i], offset, size) && Contains(spans[j], offset, size)
    ensures i == j
  {
    if i < j { NoOverlap(spans, i, j); } else if j < i { NoOverlap(spans, j, i); }
  }

  /** The search that looks at every span. */
  function LinearScan(spans: seq<Span>, offset: Int64, size: UInt64): Option<NewBase> {
    if spans == [] then None
    else if Contains(spans[0], offset, size) then Some(NewBase(offset - spans[0].start, spans[0].base))
    else LinearScan(spans[1..], offset, size)
  }

  lemma {:induction false} ScanFinds(spans: seq<Span>, i: nat, offset: Int64, size: UInt64)
    requires i < |spans| && Contains(spans[i], offset, size)
    requires forall j :: 0 <= j < i ==> !Contains(spans[j], offset, size)
    ensures LinearScan(spans, offset, size) == Some(NewBase(offset - spans[i].start, spans[i].base))
  {
    if i > 0 { ScanFinds(spans[1..], i - 1, offset, size); }
  }

  lemma {:induction false} ScanFindsNothing(spans: seq<Span>, offset: Int64, size: UInt64)
    requires forall j :: 0 <= j < |spans| ==> !Contains(spans[j], offset, size)
    ensures LinearScan(spans, offset, size) == None
  {
    if spans != [] { ScanFindsNothing(spans[1..], offset, size); }
  }

  function InsertAt(spans: seq<Span>, i: nat, s: Span): (r: seq<Span>)
    requires i <= |spans|
    ensures |r| == |spans| + 1
    ensures forall k :: 0 <= k < |r| ==> r[k] == if k < i then spans[k] else if k == i then s else spans[k - 1]
  {
    spans[..i] + [s] + spans[i..]
  }

  lemma {:induction false} InsertedMembers(spans: seq<Span>, i: nat, s: Span)
    requires i <= |spans|
    ensures forall x :: x in InsertAt(spans, i, s) <==> x in spans || x == s
  {
    assert spans == spans[..i] + spans[i..];
  }

  lemma {:induction false} Inserted(spans: seq<Span>, i: nat, s: Span)
    requires Sorted(spans) && Verified(spans) && i <= |spans|
    requires forall j :: 0 <= j < i ==> spans[j].start < s.start && End(spans[j]) <= s.start
    requires forall j :: i <= j < |spans| ==> s.start < spans[j].start && End(s) <= spans[j].start
    ensures Sorted(InsertAt(spans, i, s)) && Verified(InsertAt(spans, i, s))
  {
    var r := InsertAt(spans, i, s);
    forall j, k | 0 <= j < k < |r| ensures r[j].start < r[k].start {
    }
    forall k | 0 <= k < |r| - 1 ensures End(r[k]) <= r[k + 1].start {
      if k < i - 1 {
        NoOverlap(spans, k, k + 1);
      } else if k > i {
        NoOverlap(spans, k - 1, k);
      }
    }
  }

  class StackAccessRedirector {
    const baseOffset: Int64
    /** The map from starts to spans, in the order of the starts. */
    var spans: seq<Span>

    ghost predicate Valid()
      reads this
    {
      Sorted(spans) && Verified(spans)
    }

    constructor (baseOffset: Int64)
      ensures Valid() && spans == [] && this.baseOffset == baseOffset
    {
      this.baseOffset := baseOffset;
      spans := [];
    }

    /** The position of the first span that starts after `offset`. */
    method UpperBound(offset: Int64) returns (i: nat)
      requires Valid()
      ensures i <= |spans|
      ensures forall j :: 0 <= j < i ==> spans[j].start <= offset
      ensures forall j :: i <= j < |spans| ==> offset < spans[j].start
    {
      var lo, hi := 0, |spans|;
      while lo < hi
        invariant 0 <= lo <= hi <= |spans|
        invariant forall j :: 0 <= j < lo ==> spans[j].start <= offset
        invariant forall j :: hi <= j < |spans| ==> offset < spans[j].start
      {
        var mid := (lo + hi) / 2;
        if offset < spans[mid].start {
          hi := mid;
        } else {
          lo := mid + 1;
        }
      }
      i := lo;
    }

    /** Records a span. A span at the same place as another, or one that overlaps its
        neighbours, fails an assertion. */
    method RecordSpan(offset: UInt64, size: SpanSize, base: nat)
      requires Valid()
      requires forall i :: 0 <= i < |spans| ==> Apart(spans[i], Span(AddOffset(baseOffset, offset), size, base))
      modifies this
      ensures Valid()
      ensures forall s :: s in spans <==> s in old(spans) || s == Span(AddOffset(baseOffset, offset), size, base)
      ensures |spans| == |old(spans)| + 1
    {
      var s := Span(AddOffset(baseOffset, offset), size, base);
      var i := UpperBound(s.start);
      Inserted(spans, i, s);
      InsertedMembers(spans, i, s);
      spans := InsertAt(spans, i, s);
    }

    /** Finds a base exactly when some span contains the whole access, and agrees with
        the scan of all spans. */
    method ComputeNewBase(offset: Int64, size: UInt64) returns (r: Option<NewBase>)
      requires Valid()
      ensures r == LinearScan(spans, offset, size)
      ensures r.Some? <==> exists i :: 0 <= i < |spans| && Contains(spans[i], offset, size)
    {
      var it := UpperBound(offset);
      if it == 0 {
        ScanFindsNothing(spans, offset, size);
        return None;
      }
      it := it - 1;
      var span := spans[it];
      forall j | 0 <= j < |spans| && j != it ensures !Contains(spans[j], offset, size) {
        if j < it { NoOverlap(spans, j, it); }
      }
      var spanEnd := OverflowSafe(span.start, span.size);
      var end := OverflowSafe(offset, size);
      if spanEnd.None? || end.None? || offset >= spanEnd.value || end.value > spanEnd.value {
        ScanFindsNothing(spans, offset, size);
        return None;
      }
      ScanFinds(spans, it, offset, size);
      return Some(NewBase(offset - span.start, span.base));
    }
  }

  predicate Covers(lo: int, hi: int, b: int) {
    lo <= b < hi
  }

  /** For accesses of at least one byte to spans that end below the largest offset,
      containment is that of the byte ranges. */
  lemma ContainsAccess(s: Span, offset: Int64, size: UInt64)
    requires size > 0 && End(s) <= Int64Max
    ensures Contains(s, offset, size) <==> (forall b :: Covers(offset, offset + size, b) ==> Covers(s.start, End(s), b))
  {
    if forall b :: Covers(offset, offset + size, b) ==> Covers(s.start, End(s), b) {
      assert Covers(offset, offset + size, offset) && Covers(s.start, End(s), offset);
      assert Covers(offset, offset + size, offset + size - 1) && Covers(s.start, End(s), offset + size - 1);
    }
  }
}

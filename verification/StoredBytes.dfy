/** Which bytes of the stack a call may receive from which stores: a dataflow over the
    control-flow graph, and the decision whether a call owns a store. */
module StoredBytes {
  import opened Wrappers

  /** `Access` is a load or a store; its offset is present when it is known to target
      an exact range of the stack. Stores are named by their instruction. */
  datatype Inst =
    | IsolatedCall
    | Access(isStore: bool, id: nat, offset: Option<int>, size: nat)
    | Other

  datatype StoredByte = StoredByte(stackOffset: int, store: nat, storeOffset: nat)

  type Lattice = set<StoredByte>

  // ----- The transfer function -----

  predicate Touches(i: Inst, offset: int) {
    i.Access? && i.offset.Some? && i.offset.value <= offset < i.offset.value + i.size
  }

  /** The instruction ends the life of entries for the byte at `offset`. */
  predicate Kills(i: Inst, offset: int) {
    i.IsolatedCall? || Touches(i, offset)
  }

  predicate Writes(i: Inst, b: StoredByte) {
    && i.Access? && i.isStore && i.offset.Some? && i.id == b.store
    && b.storeOffset < i.size && b.stackOffset == i.offset.value + b.storeOffset
  }

  function Bytes(offset: int, id: nat, size: nat): Lattice {
    if size == 0 then {} else Bytes(offset, id, size - 1) + {StoredByte(offset + size - 1, id, size - 1)}
  }

  function TransferInst(i: Inst, v: Lattice): Lattice {
    match i
    case IsolatedCall => {}
    case Other => v
    case Access(isStore, id, offset, size) =>
      if offset.None? then v
      else
        (set b | b in v && !(offset.value <= b.stackOffset < offset.value + size))
        + if isStore then Bytes(offset.value, id, size) else {}
  }

  function Transfer(insts: seq<Inst>, v: Lattice): Lattice {
    if insts == [] then v else Transfer(insts[1..], TransferInst(insts[0], v))
  }

  method TransferBlock(insts: seq<Inst>, value: Lattice) returns (stackBytes: Lattice)
    ensures stackBytes == Transfer(insts, value)
  {
    stackBytes := value;
    for k := 0 to |insts|
      invariant Transfer(insts[k..], stackBytes) == Transfer(insts, value)
    {
      var i := insts[k];
      assert insts[k..][0] == i && insts[k..][1..] == insts[k + 1..];
      ghost var before := stackBytes;
      if i.IsolatedCall? {
        stackBytes := {};
        continue;
      }
      if !i.Access? || i.offset.None? {
        continue;
      }
      var start, end := i.offset.value, i.offset.value + i.size;
      stackBytes := set b | b in stackBytes && !(start <= b.stackOffset < end);
      if i.isStore {
        ghost var kept := stackBytes;
        for n := 0 to i.size
          invariant stackBytes == kept + Bytes(start, i.id, n)
        {
          stackBytes := stackBytes + {StoredByte(start + n, i.id, n)};
        }
      }
      assert stackBytes == TransferInst(i, before);
    }
  }

  lemma {:induction false} BytesAre(offset: int, id: nat, size: nat, b: StoredByte)
    ensures b in Bytes(offset, id, size)
       <==> b.store == id && b.storeOffset < size && b.stackOffset == offset + b.storeOffset
  {
    if size > 0 { BytesAre(offset, id, size - 1, b); }
  }

  lemma {:induction false} InstSurvival(i: Inst, v: Lattice, b: StoredByte)
    ensures b in TransferInst(i, v) <==> Writes(i, b) || (b in v && !Kills(i, b.stackOffset))
  {
    if i.Access? && i.offset.Some? { BytesAre(i.offset.value, i.id, i.size, b); }
  }

  /** The store at position `k` writes the byte, and nothing behind it touches that
      byte of the stack or calls an isolated function. */
  predicate LastWrite(insts: seq<Inst>, k: nat, b: StoredByte) {
    && k < |insts| && Writes(insts[k], b)
    && forall j :: k < j < |insts| ==> !Kills(insts[j], b.stackOffset)
  }

  predicate Untouched(insts: seq<Inst>, offset: int) {
    forall j :: 0 <= j < |insts| ==> !Kills(insts[j], offset)
  }

  /** An entry survives a run exactly when its store is the last access to that byte
      with a known offset, with no isolated call behind it. */
  lemma {:induction false} Survival(insts: seq<Inst>, v: Lattice, b: StoredByte)
    ensures b in Transfer(insts, v)
       <==> (exists k: nat :: LastWrite(insts, k, b)) || (b in v && Untouched(insts, b.stackOffset))
  {
    if insts != [] {
      var rest := insts[1..];
      InstSurvival(insts[0], v, b);
      Survival(rest, TransferInst(insts[0], v), b);
      if k: nat :| LastWrite(rest, k, b) { assert LastWrite(insts, k + 1, b); }
      if k: nat :| LastWrite(insts, k, b) {
        if k > 0 { assert LastWrite(rest, k - 1, b); }
        else { assert Untouched(rest, b.stackOffset); }
      }
      if Untouched(rest, b.stackOffset) && Writes(insts[0], b) { assert LastWrite(insts, 0, b); }
      if Untouched(rest, b.stackOffset) && !Kills(insts[0], b.stackOffset) { assert Untouched(insts, b.stackOffset); }
      if Untouched(insts, b.stackOffset) { assert !Kills(insts[0], b.stackOffset) && Untouched(rest, b.stackOffset); }
    }
  }

  lemma {:induction false} TransferAppend(s: seq<Inst>, t: seq<Inst>, v: Lattice)
    ensures Transfer(s + t, v) == Transfer(t, Transfer(s, v))
    decreases |s|
  {
    if s == [] {
      assert s + t == t;
    } else {
      assert (s + t)[0] == s[0] && (s + t)[1..] == s[1..] + t;
      TransferAppend(s[1..], t, TransferInst(s[0], v));
    }
  }

  // ----- The equations over a control-flow graph -----

  datatype Cfg = Cfg(blocks: map<nat, seq<Inst>>, edges: set<(nat, nat)>, entry: nat)

  predicate ValidCfg(g: Cfg) {
    g.entry in g.blocks && forall e :: e in g.edges ==> e.0 in g.blocks && e.1 in g.blocks
  }

  predicate IsPath(g: Cfg, p: seq<nat>) {
    && p != [] && p[0] == g.entry
    && (forall i :: 0 <= i < |p| ==> p[i] in g.blocks)
    && forall i :: 0 <= i < |p| - 1 ==> (p[i], p[i + 1]) in g.edges
  }

  /** The instructions of the blocks of a path, in order. */
  function Trace(g: Cfg, p: seq<nat>): seq<Inst> {
    if p == [] then [] else Trace(g, p[..|p| - 1]) + if p[|p| - 1] in g.blocks then g.blocks[p[|p| - 1]] else []
  }

  /** The byte is stored at the start of block `n` on some path from the entry. */
  ghost predicate Arrives(g: Cfg, n: nat, b: StoredByte) {
    exists p :: IsPath(g, p) && p[|p| - 1] == n && b in Transfer(Trace(g, p[..|p| - 1]), {})
  }

  /** The byte is stored at the end of block `n` on some path from the entry. */
  ghost predicate Leaves(g: Cfg, n: nat, b: StoredByte) {
    exists p :: IsPath(g, p) && p[|p| - 1] == n && b in Transfer(Trace(g, p), {})
  }

  type Values = map<nat, Lattice>

  /** `value` holds at the start of every block what leaves its predecessors. */
  ghost predicate Solves(g: Cfg, value: Values)
    requires ValidCfg(g)
  {
    && value.Keys == g.blocks.Keys
    && (forall n, b :: n in value && b in value[n] ==> exists m :: Feeds(g, value, m, n, b))
    && (forall n, b, m :: n in value && Feeds(g, value, m, n, b) ==> b in value[n])
  }

  predicate Feeds(g: Cfg, value: Values, m: nat, n: nat, b: StoredByte)
    requires ValidCfg(g) && value.Keys == g.blocks.Keys
  {
    (m, n) in g.edges && b in Transfer(g.blocks[m], value[m])
  }

  ghost predicate IsLeast(g: Cfg, value: Values)
    requires ValidCfg(g)
  {
    Solves(g, value) && forall other :: Solves(g, other) ==> forall n :: n in value ==> value[n] <= other[n]
  }

  ghost predicate AllReachable(g: Cfg) {
    forall n :: n in g.blocks ==> exists p :: IsPath(g, p) && p[|p| - 1] == n
  }

  /** Every solution contains what the paths say. */
  lemma {:induction false} PathsAreBelow(g: Cfg, value: Values, p: seq<nat>, b: StoredByte)
    requires ValidCfg(g) && Solves(g, value) && IsPath(g, p) && b in Transfer(Trace(g, p[..|p| - 1]), {})
    ensures b in value[p[|p| - 1]]
    decreases |p|
  {
    if |p| > 1 {
      var q := p[..|p| - 1];
      var m, n := q[|q| - 1], p[|p| - 1];
      assert IsPath(g, q) by {
        assert forall i :: 0 <= i < |q| - 1 ==> (q[i], q[i + 1]) == (p[i], p[i + 1]);
      }
      assert (p[|p| - 2], p[|p| - 2 + 1]) in g.edges;
      TransferAppend(Trace(g, q[..|q| - 1]), g.blocks[m], {});
      Survival(g.blocks[m], Transfer(Trace(g, q[..|q| - 1]), {}), b);
      Survival(g.blocks[m], value[m], b);
      if b in Transfer(Trace(g, q[..|q| - 1]), {}) { PathsAreBelow(g, value, q, b); }
      assert Feeds(g, value, m, n, b);
    }
  }

  /** What arrives on paths is itself a solution, when every block can be reached. */
  ghost function OnPaths(g: Cfg, value: Values): (r: Values)
    ensures r.Keys == value.Keys
    ensures forall n, b :: n in r ==> (b in r[n] <==> b in value[n] && Arrives(g, n, b))
  {
    map n | n in value :: set b | b in value[n] && Arrives(g, n, b)
  }

  lemma {:induction false} LeavesThenArrives(g: Cfg, m: nat, n: nat, b: StoredByte)
    requires ValidCfg(g) && (m, n) in g.edges && Leaves(g, m, b)
    ensures Arrives(g, n, b)
  {
    var p :| IsPath(g, p) && p[|p| - 1] == m && b in Transfer(Trace(g, p), {});
    var q := p + [n];
    assert forall i :: 0 <= i < |q| - 1 ==> (q[i], q[i + 1]) == if i < |p| - 1 then (p[i], p[i + 1]) else (m, n);
    assert q[..|q| - 1] == p;
    assert IsPath(g, q);
  }

  lemma {:induction false} ArrivesThenLeft(g: Cfg, n: nat, b: StoredByte)
    requires ValidCfg(g) && Arrives(g, n, b)
    ensures exists m :: (m, n) in g.edges && Leaves(g, m, b)
  {
    var p :| IsPath(g, p) && p[|p| - 1] == n && b in Transfer(Trace(g, p[..|p| - 1]), {});
    var q := p[..|p| - 1];
    if q != [] {
      var m := q[|q| - 1];
      assert forall i :: 0 <= i < |q| - 1 ==> (q[i], q[i + 1]) == (p[i], p[i + 1]);
      assert (p[|p| - 2], p[|p| - 2 + 1]) in g.edges;
      assert IsPath(g, q);
      assert (m, n) in g.edges && Leaves(g, m, b);
    }
  }

  /** A byte leaves a block when the block writes it, or it arrives and survives. */
  lemma {:induction false} LeavesBlock(g: Cfg, m: nat, b: StoredByte)
    requires ValidCfg(g) && m in g.blocks && exists p :: IsPath(g, p) && p[|p| - 1] == m
    ensures Leaves(g, m, b)
       <==> (exists k: nat :: LastWrite(g.blocks[m], k, b))
            || (Arrives(g, m, b) && Untouched(g.blocks[m], b.stackOffset))
  {
    forall p | IsPath(g, p) && p[|p| - 1] == m
      ensures b in Transfer(Trace(g, p), {}) <==>
              (exists k: nat :: LastWrite(g.blocks[m], k, b))
              || (b in Transfer(Trace(g, p[..|p| - 1]), {}) && Untouched(g.blocks[m], b.stackOffset))
    {
      TransferAppend(Trace(g, p[..|p| - 1]), g.blocks[m], {});
      Survival(g.blocks[m], Transfer(Trace(g, p[..|p| - 1]), {}), b);
    }
  }

  lemma {:induction false} ArrivesIsBelow(g: Cfg, value: Values, n: nat, b: StoredByte)
    requires ValidCfg(g) && Solves(g, value) && Arrives(g, n, b)
    ensures n in value && b in value[n]
  {
    var p :| IsPath(g, p) && p[|p| - 1] == n && b in Transfer(Trace(g, p[..|p| - 1]), {});
    PathsAreBelow(g, value, p, b);
  }

  lemma {:induction false} PathsSolve(g: Cfg, value: Values)
    requires ValidCfg(g) && AllReachable(g) && Solves(g, value)
    ensures Solves(g, OnPaths(g, value))
  {
    var on := OnPaths(g, value);
    forall n, b | n in on && b in on[n] ensures exists m :: Feeds(g, on, m, n, b) {
      ArrivesThenLeft(g, n, b);
      var m :| (m, n) in g.edges && Leaves(g, m, b);
      LeavesBlock(g, m, b);
      Survival(g.blocks[m], on[m], b);
      if Arrives(g, m, b) { ArrivesIsBelow(g, value, m, b); }
      assert Feeds(g, on, m, n, b);
    }
    forall n, b, m | n in on && Feeds(g, on, m, n, b) ensures b in on[n] {
      LeavesBlock(g, m, b);
      Survival(g.blocks[m], on[m], b);
      LeavesThenArrives(g, m, n, b);
      ArrivesIsBelow(g, value, n, b);
    }
  }

  /** On any graph, with cycles or without, the least solution of the equations is
      exactly the union over all paths from the entry. */
  lemma {:induction false} LeastSolutionIsPaths(g: Cfg, value: Values, n: nat, b: StoredByte)
    requires ValidCfg(g) && AllReachable(g) && IsLeast(g, value) && n in g.blocks
    ensures b in value[n] <==> Arrives(g, n, b)
    ensures b in Transfer(g.blocks[n], value[n]) <==> Leaves(g, n, b)
  {
    PathsSolve(g, value);
    assert value[n] <= OnPaths(g, value)[n];
    if Arrives(g, n, b) { ArrivesIsBelow(g, value, n, b); }
    LeavesBlock(g, n, b);
    Survival(g.blocks[n], value[n], b);
  }

  // ----- Does a call own a store? -----

  datatype StoreInfo = StoreInfo(count: nat, offset: int)

  function Of(bytes: Lattice, store: nat): Lattice {
    set b | b in bytes && b.store == store
  }

  /** Every store has one offset and one size, wherever it occurs. */
  predicate OneRange(insts: seq<Inst>, store: nat, offset: int, size: nat) {
    forall k :: 0 <= k < |insts| && insts[k].Access? && insts[k].isStore && insts[k].id == store ==>
      insts[k].size == size && insts[k].offset == Some(offset)
  }

  /** The loop that counts the bytes of each store. */
  method CountBytes(bytes: Lattice) returns (stores: map<nat, StoreInfo>)
    ensures forall s :: s in stores <==> Of(bytes, s) != {}
    ensures forall s :: s in stores ==>
              && stores[s].count == |Of(bytes, s)|
              && exists b :: b in Of(bytes, s) && stores[s].offset == b.stackOffset - b.storeOffset
  {
    stores := map[];
    var rest := bytes;
    ghost var done: Lattice := {};
    while rest != {}
      invariant done + rest == bytes && done * rest == {}
      invariant forall s :: s in stores <==> Of(done, s) != {}
      invariant forall s :: s in stores ==> stores[s].count == |Of(done, s)|
      invariant forall s :: s in stores ==>
                  exists b :: b in Of(done, s) && stores[s].offset == b.stackOffset - b.storeOffset
      decreases rest
    {
      var b :| b in rest;
      rest := rest - {b};
      var count := if b.store in stores then stores[b.store].count else 0;
      stores := stores[b.store := StoreInfo(count + 1, b.stackOffset - b.storeOffset)];
      OneMore(done, b);
      done := done + {b};
    }
    assert done == bytes;
  }

  lemma {:induction false} OneMore(done: Lattice, b: StoredByte)
    requires b !in done
    ensures forall s :: Of(done + {b}, s) == if s == b.store then Of(done, s) + {b} else Of(done, s)
    ensures |Of(done + {b}, b.store)| == |Of(done, b.store)| + 1
  {
    assert Of(done + {b}, b.store) == Of(done, b.store) + {b};
  }

  lemma {:induction false} BytesSize(offset: int, id: nat, size: nat)
    ensures |Bytes(offset, id, size)| == size
  {
    if size > 0 {
      BytesSize(offset, id, size - 1);
      BytesAre(offset, id, size - 1, StoredByte(offset + size - 1, id, size - 1));
    }
  }

  lemma {:induction false} SubsetWithSameSize<T>(a: set<T>, b: set<T>)
    requires a <= b
    ensures |a| <= |b| && (|a| == |b| <==> a == b)
  {
    var c := b - a;
    assert b == a + c && a * c == {};
    assert |b| == |a| + |c|;
  }

  /** The bytes of a store that leave a block belong to its range. */
  lemma {:induction false} LeavingBytesAreOfTheStore(g: Cfg, n: nat, b: StoredByte, offset: int, size: nat)
    requires ValidCfg(g) && Leaves(g, n, b)
    requires forall m :: m in g.blocks ==> OneRange(g.blocks[m], b.store, offset, size)
    ensures b in Bytes(offset, b.store, size)
  {
    var p :| IsPath(g, p) && p[|p| - 1] == n && b in Transfer(Trace(g, p), {});
    Survival(Trace(g, p), {}, b);
    var k: nat :| LastWrite(Trace(g, p), k, b);
    TraceHasOneRange(g, p, b.store, offset, size);
    BytesAre(offset, b.store, size, b);
  }

  lemma {:induction false} TraceHasOneRange(g: Cfg, p: seq<nat>, store: nat, offset: int, size: nat)
    requires forall m :: m in g.blocks ==> OneRange(g.blocks[m], store, offset, size)
    ensures OneRange(Trace(g, p), store, offset, size)
    decreases |p|
  {
    if p != [] { TraceHasOneRange(g, p[..|p| - 1], store, offset, size); }
  }

  /** Byte number `j` of a store reaches the end of block `n` on some path. */
  ghost predicate ByteLeaves(g: Cfg, n: nat, store: nat, offset: int, j: nat) {
    Leaves(g, n, StoredByte(offset + j, store, j))
  }

  lemma {:induction false} AllBytesLeave(g: Cfg, n: nat, store: nat, offset: int, size: nat)
    requires forall b :: b in Bytes(offset, store, size) ==> Leaves(g, n, b)
    ensures forall j: nat :: j < size ==> ByteLeaves(g, n, store, offset, j)
  {
    forall j: nat | j < size ensures ByteLeaves(g, n, store, offset, j) {
      BytesAre(offset, store, size, StoredByte(offset + j, store, j));
    }
  }

  /** The count of a store equals its size exactly when each of its bytes reaches the
      call site on some path. */
  lemma {:induction false} CountIsSizeIff(g: Cfg, value: Values, n: nat, store: nat, offset: int, size: nat)
    requires ValidCfg(g) && AllReachable(g) && IsLeast(g, value) && n in g.blocks
    requires forall m :: m in g.blocks ==> OneRange(g.blocks[m], store, offset, size)
    ensures |Of(Transfer(g.blocks[n], value[n]), store)| == size
       <==> forall j: nat :: j < size ==> ByteLeaves(g, n, store, offset, j)
  {
    var mine, all := Of(Transfer(g.blocks[n], value[n]), store), Bytes(offset, store, size);
    forall b | b in mine ensures b in all && Leaves(g, n, b) {
      LeastSolutionIsPaths(g, value, n, b);
      LeavingBytesAreOfTheStore(g, n, b, offset, size);
    }
    BytesSize(offset, store, size);
    SubsetWithSameSize(mine, all);
    if forall j: nat :: j < size ==> ByteLeaves(g, n, store, offset, j) {
      forall b | b in all ensures b in mine {
        BytesAre(offset, store, size, b);
        assert ByteLeaves(g, n, store, offset, b.storeOffset);
        assert b == StoredByte(offset + b.storeOffset, store, b.storeOffset);
        LeastSolutionIsPaths(g, value, n, b);
      }
    }
    if mine == all { AllBytesLeave(g, n, store, offset, size); }
  }
}

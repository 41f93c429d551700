/** The kernel heap (kernel/mm/heap.c) as a list of blocks: first fit, splitting and coalescing.
    Module HeapMemory runs the same operations on the words of memory. */
module Heap {
  import opened Bytes

  const HEADER: nat := 20       // sizeof(block_header_t)
  const HEADER_WORDS: nat := 5

  /** A block: the word offset of its header in the heap region, its usable bytes, its state. */
  datatype Block = Block(at: nat, size: nat, free: bool)

  /** The first byte behind a block, as an offset in the region. */
  function End(b: Block): nat { 4 * b.at + HEADER + b.size }

  /** Blocks tile the region: the first starts it, each starts where the one before ends, and the
      last one ends it. */
  ghost predicate Tiles(bs: seq<Block>, size: nat) {
    && bs != [] && bs[0].at == 0 && End(bs[|bs| - 1]) == size
    && forall i | 0 <= i < |bs| - 1 :: 4 * bs[i + 1].at == End(bs[i])
  }

  ghost predicate Coalesced(bs: seq<Block>) {
    forall i | 0 <= i < |bs| - 1 :: !(bs[i].free && bs[i + 1].free)
  }

  ghost predicate WellFormed(bs: seq<Block>, size: nat) {
    Tiles(bs, size) && Coalesced(bs)
  }

  /** Blocks do not overlap and stay inside the region. */
  lemma {:induction false} Ordered(bs: seq<Block>, size: nat, i: nat, j: nat)
    requires Tiles(bs, size) && i <= j < |bs|
    ensures End(bs[j]) <= size
    ensures i < j ==> End(bs[i]) <= 4 * bs[j].at
    decreases |bs| - i, j - i
  {
    if i < j { Ordered(bs, size, i, j - 1); }
    InRegion(bs, size, j);
  }

  lemma {:induction false} InRegion(bs: seq<Block>, size: nat, j: nat)
    requires Tiles(bs, size) && j < |bs|
    ensures End(bs[j]) <= size
    decreases |bs| - j
  {
    if j < |bs| - 1 { InRegion(bs, size, j + 1); }
  }

  // ---------------------------------------------------------------- operations

  /** ALIGN8 on a 32-bit size_t. */
  function Align8(n: nat): (r: nat)
    ensures r % 8 == 0 && r < U32
  {
    (n + 7) % U32 / 8 * 8
  }

  /** Rounding up wraps to 0 for the last seven sizes below 2^32, and only for them. */
  lemma Align8Covers(n: nat)
    requires n < U32
    ensures Align8(n) >= n <==> n <= U32 - 8
    ensures n <= U32 - 8 ==> Align8(n) < n + 8
  {
  }

  predicate Fits(b: Block, need: nat) { b.free && b.size >= need }

  /** The first block at or after i that fits; |bs| when none does. */
  function FirstFit(bs: seq<Block>, need: nat, i: nat): (r: nat)
    requires i <= |bs|
    ensures i <= r <= |bs|
    ensures r < |bs| ==> Fits(bs[r], need)
    ensures forall j | i <= j < r :: !Fits(bs[j], need)
    decreases |bs| - i
  {
    if i == |bs| || Fits(bs[i], need) then i else FirstFit(bs, need, i + 1)
  }

  /** `leftover` of split_block as a mathematical number. */
  function Leftover(b: Block, need: nat): int { b.size - need - HEADER }

  /** `leftover` as the code computes it, in an unsigned 32-bit size_t. */
  function WrappedLeftover(b: Block, need: nat): nat { Leftover(b, need) % U32 }

  /** The test that decides to split, as the code makes it and as it is meant. */
  predicate SplitsAsCoded(b: Block, need: nat) { WrappedLeftover(b, need) > HEADER + 8 }
  predicate SplitsAsMeant(b: Block, need: nat) { Leftover(b, need) > HEADER + 8 }

  /** The two tests agree exactly when the fit leaves at least a header's worth of bytes: on an exact
      or nearly exact fit the unsigned difference wraps and the block is split all the same. */
  lemma SplitTestsAgreeIff(b: Block, need: nat)
    requires need <= b.size < U32
    ensures SplitsAsCoded(b, need) == SplitsAsMeant(b, need) <==> b.size - need >= HEADER
  {
  }

  /** A block reused for a request of exactly its own size: the code splits it. */
  lemma ExactFitSplits()
    ensures SplitsAsCoded(Block(0, 64, true), 64) && !SplitsAsMeant(Block(0, 64, true), 64)
  {
  }

  /** Block i cut in two: need bytes, allocated, and a free rest. */
  function Split(bs: seq<Block>, i: nat, need: nat): (r: seq<Block>)
    requires i < |bs| && SplitsAsMeant(bs[i], need)
    ensures |r| == |bs| + 1
    ensures forall k | 0 <= k < i :: r[k] == bs[k]
    ensures r[i] == Block(bs[i].at, need, false)
    ensures r[i + 1] == Block(bs[i].at + HEADER_WORDS + need / 4, Leftover(bs[i], need), true)
    ensures forall k | i + 1 < k < |r| :: r[k] == bs[k - 1]
  {
    bs[..i]
    + [Block(bs[i].at, need, false), Block(bs[i].at + HEADER_WORDS + need / 4, Leftover(bs[i], need), true)]
    + bs[i + 1..]
  }

  /** Allocating need bytes in block i. */
  function Alloc(bs: seq<Block>, i: nat, need: nat): seq<Block>
    requires i < |bs|
  {
    if SplitsAsMeant(bs[i], need) then Split(bs, i, need) else bs[i := bs[i].(free := false)]
  }

  /** Block i absorbs block i + 1. */
  function Absorb(bs: seq<Block>, i: nat): (r: seq<Block>)
    requires i + 1 < |bs|
    ensures |r| == |bs| - 1
    ensures forall k | 0 <= k < i :: r[k] == bs[k]
    ensures r[i] == bs[i].(size := bs[i].size + HEADER + bs[i + 1].size)
    ensures forall k | i < k < |r| :: r[k] == bs[k + 1]
  {
    bs[..i] + [bs[i].(size := bs[i].size + HEADER + bs[i + 1].size)] + bs[i + 2..]
  }

  /** merge_free(i): absorb the free blocks behind it, then let a free block before it absorb it. */
  function MergeNext(bs: seq<Block>, i: nat): (r: seq<Block>)
    requires i < |bs|
    ensures i < |r|
    decreases |bs|
  {
    if i + 1 < |bs| && bs[i + 1].free then MergeNext(Absorb(bs, i), i) else bs
  }

  function MergePrev(bs: seq<Block>, i: nat): seq<Block>
    requires i < |bs|
  {
    if i > 0 && bs[i - 1].free then Absorb(bs, i - 1) else bs
  }

  function Release(bs: seq<Block>, i: nat): seq<Block>
    requires i < |bs|
  {
    MergePrev(MergeNext(bs[i := bs[i].(free := true)], i), i)
  }

  // ---------------------------------------------------------------- what the operations keep

  lemma AllocKeeps(bs: seq<Block>, i: nat, need: nat, size: nat)
    requires WellFormed(bs, size) && i < |bs| && Fits(bs[i], need) && need % 8 == 0
    ensures WellFormed(Alloc(bs, i, need), size)
  {
    if SplitsAsMeant(bs[i], need) {
      SplitEnds(bs, i, need);
      hide Split, WellFormed, SplitsAsMeant, End;
      SplitJoints(bs, Split(bs, i, need), i, size);
    } else {
      TakeWhole(bs, i, size);
    }
  }

  /** The two parts of a split block fill its place. */
  lemma SplitEnds(bs: seq<Block>, i: nat, need: nat)
    requires i < |bs| && SplitsAsMeant(bs[i], need) && need % 8 == 0
    ensures var r := Split(bs, i, need); 4 * r[i + 1].at == End(r[i]) && End(r[i + 1]) == End(bs[i])
  {
    hide Split;
    Quarters(need);
  }

  lemma Quarters(need: nat)
    requires need % 8 == 0
    ensures need == 4 * (need / 4)
  {
    var q := need / 8;
    assert need == 8 * q && need / 4 == 2 * q;
  }

  lemma TakeWhole(bs: seq<Block>, i: nat, size: nat)
    requires WellFormed(bs, size) && i < |bs|
    ensures WellFormed(bs[i := bs[i].(free := false)], size)
  {}

  lemma SplitJoints(bs: seq<Block>, r: seq<Block>, i: nat, size: nat)
    requires WellFormed(bs, size) && i < |bs| && |r| == |bs| + 1 && bs[i].free
    requires r[i].at == bs[i].at && !r[i].free && 4 * r[i + 1].at == End(r[i]) && End(r[i + 1]) == End(bs[i])
    requires forall k | 0 <= k < i :: r[k] == bs[k]
    requires forall k | i + 1 < k < |r| :: r[k] == bs[k - 1]
    ensures WellFormed(r, size)
  {
    forall j | 0 <= j < |r| - 1 ensures 4 * r[j + 1].at == End(r[j]) && !(r[j].free && r[j + 1].free) {
      if j > i {
        assert r[j + 1] == bs[j];
        assert 4 * bs[j].at == End(bs[j - 1]) && !(bs[j - 1].free && bs[j].free);
      }
    }
  }

  lemma AbsorbKeepsTiles(bs: seq<Block>, i: nat, size: nat)
    requires Tiles(bs, size) && i + 1 < |bs|
    ensures Tiles(Absorb(bs, i), size)
  {
    hide Absorb;
    var r := Absorb(bs, i);
    forall j | 0 <= j < |r| - 1 ensures 4 * r[j + 1].at == End(r[j]) {
      if j < i { assert 4 * bs[j + 1].at == End(bs[j]); }
      else { assert 4 * bs[i + 1].at == End(bs[i]) && 4 * bs[j + 2].at == End(bs[j + 1]); }
    }
  }

  lemma ReleaseKeeps(bs: seq<Block>, i: nat, size: nat)
    requires WellFormed(bs, size) && i < |bs| && !bs[i].free
    ensures WellFormed(Release(bs, i), size)
  {
    hide MergeNext, Absorb;
    var a := bs[i := bs[i].(free := true)];
    assert Tiles(a, size);
    MergeNextKeeps(bs, a, i, size);
    var b := MergeNext(a, i);
    hide Tiles;
    if i > 0 && b[i - 1].free {
      AbsorbKeepsTiles(b, i - 1, size);
      var r := Absorb(b, i - 1);
      forall j | 0 <= j < |r| - 1 ensures !(r[j].free && r[j + 1].free) {
        if j >= i { assert !(b[j + 1].free && b[j + 2].free); }
        else if j == i - 1 { assert !(b[i].free && b[i + 1].free); }
        else { assert !(bs[j].free && bs[j + 1].free); }
      }
    }
  }

  /** After the forward merge only the freed block and its predecessor can both be free. */
  lemma MergeNextKeeps(bs: seq<Block>, a: seq<Block>, i: nat, size: nat)
    requires WellFormed(bs, size) && i < |bs| && !bs[i].free && a == bs[i := bs[i].(free := true)] && Tiles(a, size)
    ensures var b := MergeNext(a, i);
            && Tiles(b, size) && b[i].free && (forall j | 0 <= j < i :: b[j] == bs[j])
            && forall j | 0 <= j < |b| - 1 && j != i - 1 :: !(b[j].free && b[j + 1].free)
  {
    hide Absorb;
    if i + 1 < |a| && a[i + 1].free {
      AbsorbKeepsTiles(a, i, size);
      var m := Absorb(a, i);
      hide Tiles;
      assert MergeNext(m, i) == m;
      assert MergeNext(a, i) == m;
      forall j | 0 <= j < |m| - 1 && j != i - 1 ensures !(m[j].free && m[j + 1].free) {
        if j >= i { assert !(bs[j + 1].free && bs[j + 2].free); } else { assert !(bs[j].free && bs[j + 1].free); }
      }
    }
  }

  /** The live allocations: offset of the payload and usable size. */
  ghost function Live(bs: seq<Block>): set<(nat, nat)> {
    set b | b in bs && !b.free :: (4 * b.at + HEADER, b.size)
  }

  /** kmalloc adds exactly one allocation, at least as big as asked for. */
  lemma AllocAddsOne(bs: seq<Block>, i: nat, need: nat, size: nat)
    requires WellFormed(bs, size) && i < |bs| && Fits(bs[i], need) && need % 8 == 0
    ensures var r := Alloc(bs, i, need);
            && r[i].size >= need && !r[i].free && r[i].at == bs[i].at
            && Live(r) == Live(bs) + {(4 * bs[i].at + HEADER, r[i].size)}
  {
    hide WellFormed, Split;
    var r := Alloc(bs, i, need);
    forall b | b in r && !b.free ensures b == r[i] || b in bs {
      var k :| 0 <= k < |r| && r[k] == b;
      if SplitsAsMeant(bs[i], need) && k > i + 1 { assert b == bs[k - 1]; }
    }
    forall b | b in bs && !b.free ensures b in r {
      var k :| 0 <= k < |bs| && bs[k] == b;
      if SplitsAsMeant(bs[i], need) {
        if k < i { assert r[k] == b; } else { assert r[k + 1] == b; }
      } else {
        assert r[k] == b;
      }
    }
  }

  /** kfree takes away exactly the allocation it is given. */
  lemma ReleaseRemovesOne(bs: seq<Block>, i: nat, size: nat)
    requires WellFormed(bs, size) && i < |bs| && !bs[i].free
    ensures Live(Release(bs, i)) == Live(bs) - {(4 * bs[i].at + HEADER, bs[i].size)}
  {
    FlipLive(bs, i, size);
    var a := bs[i := bs[i].(free := true)];
    MergeNextLive(a, i);
    var c := MergeNext(a, i);
    if i > 0 && c[i - 1].free { AbsorbLive(c, i - 1); }
  }

  lemma FlipLive(bs: seq<Block>, i: nat, size: nat)
    requires WellFormed(bs, size) && i < |bs| && !bs[i].free
    ensures Live(bs[i := bs[i].(free := true)]) == Live(bs) - {(4 * bs[i].at + HEADER, bs[i].size)}
  {
    var a := bs[i := bs[i].(free := true)];
    DistinctPlaces(bs, size, i);
    hide WellFormed;
    forall b | b in a && !b.free ensures b in bs && b.at != bs[i].at {
      var k :| 0 <= k < |a| && a[k] == b;
      assert k != i && bs[k] == b;
    }
    forall b | b in bs && !b.free && b.at != bs[i].at ensures b in a {
      var k :| 0 <= k < |bs| && bs[k] == b;
      assert a[k] == b;
    }
    forall b | b in bs && b.at == bs[i].at ensures b == bs[i] {
      var k :| 0 <= k < |bs| && bs[k] == b;
    }
  }

  lemma DistinctPlaces(bs: seq<Block>, size: nat, i: nat)
    requires WellFormed(bs, size) && i < |bs|
    ensures forall k | 0 <= k < |bs| && k != i :: bs[k].at != bs[i].at
  {
    forall k | 0 <= k < |bs| && k != i ensures bs[k].at != bs[i].at {
      if k < i { Ordered(bs, size, k, i); } else { Ordered(bs, size, i, k); }
    }
  }

  lemma AbsorbLive(bs: seq<Block>, i: nat)
    requires i + 1 < |bs| && bs[i].free && bs[i + 1].free
    ensures Live(Absorb(bs, i)) == Live(bs)
  {
    hide Absorb;
    var r := Absorb(bs, i);
    forall b | b in bs && !b.free ensures b in r {
      var k :| 0 <= k < |bs| && bs[k] == b;
      if k < i { assert r[k] == b; } else { assert r[k - 1] == b; }
    }
    forall b | b in r && !b.free ensures b in bs {
      var k :| 0 <= k < |r| && r[k] == b;
      if k < i { assert bs[k] == b; } else { assert bs[k + 1] == b; }
    }
  }

  lemma {:induction false} MergeNextLive(bs: seq<Block>, i: nat)
    requires i < |bs| && bs[i].free
    ensures Live(MergeNext(bs, i)) == Live(bs) && MergeNext(bs, i)[i].free
    decreases |bs|
  {
    if i + 1 < |bs| && bs[i + 1].free {
      AbsorbLive(bs, i);
      MergeNextLive(Absorb(bs, i), i);
    }
  }

  /** Freeing at once what was just allocated gives back the same blocks. */
  lemma AllocThenRelease(bs: seq<Block>, i: nat, need: nat, size: nat)
    requires WellFormed(bs, size) && i < |bs| && Fits(bs[i], need) && need % 8 == 0
    ensures Release(Alloc(bs, i, need), i) == bs
  {
    var r := Alloc(bs, i, need);
    var a := r[i := r[i].(free := true)];
    if SplitsAsMeant(bs[i], need) {
      var m := Absorb(a, i);
      assert m == bs;
      assert MergeNext(a, i) == MergeNext(m, i) == bs;
    } else {
      assert a == bs;
    }
  }

  /** kmalloc gives away less than 49 bytes more than the request rounded up: what exceeds that becomes a free
      block of its own, which is never too small to be worth it. */
  lemma AllocWaste(bs: seq<Block>, i: nat, need: nat)
    requires i < |bs| && Fits(bs[i], need)
    ensures var r, spare := Alloc(bs, i, need), bs[i].size - need;
            if spare > 48
            then |r| == |bs| + 1 && r[i].size == need && r[i + 1].free && r[i + 1].size == spare - HEADER > 28
            else |r| == |bs| && r[i].size == bs[i].size
  {}

  lemma LiveHas(bs: seq<Block>, i: nat)
    requires i < |bs|
    ensures bs[i].free || (4 * bs[i].at + HEADER, bs[i].size) in Live(bs)
  {
    assert bs[i] in bs;
  }

  /** With no live allocation the heap is one free block again, as heap_init made it. */
  lemma NothingLive(bs: seq<Block>, size: nat)
    requires WellFormed(bs, size) && Live(bs) == {}
    ensures bs == [Block(0, size - HEADER, true)]
  {
    if |bs| > 1 {
      LiveHas(bs, 0);
      LiveHas(bs, 1);
      assert false;
    }
    LiveHas(bs, 0);
  }

  // ---------------------------------------------------------------- runs

  datatype Op = Malloc(n: nat) | Free(i: nat)

  /** The guard of a run: frees name live blocks. */
  ghost predicate Allowed(bs: seq<Block>, op: Op) { op.Free? ==> op.i < |bs| && !bs[op.i].free }

  function Apply(bs: seq<Block>, op: Op): seq<Block> {
    match op
    case Malloc(n) =>
      var i := FirstFit(bs, Align8(n), 0);
      if n == 0 || i == |bs| then bs else Alloc(bs, i, Align8(n))
    case Free(i) => if i < |bs| then Release(bs, i) else bs
  }

  ghost predicate AllowedRun(bs: seq<Block>, ops: seq<Op>)
    decreases |ops|
  {
    ops == [] || (Allowed(bs, ops[0]) && AllowedRun(Apply(bs, ops[0]), ops[1..]))
  }

  function Run(bs: seq<Block>, ops: seq<Op>): seq<Block>
    decreases |ops|
  {
    if ops == [] then bs else Run(Apply(bs, ops[0]), ops[1..])
  }

  /** Over every run of the intended allocator (which the code is for every request that does not meet
      a nearly exact first fit) the blocks tile the region with no two free neighbours, and as soon as nothing is
      live the heap is what heap_init made of it, in whatever order the frees came. */
  lemma {:induction false} RunKeeps(bs: seq<Block>, ops: seq<Op>, size: nat)
    requires WellFormed(bs, size) && AllowedRun(bs, ops)
    ensures WellFormed(Run(bs, ops), size)
    ensures Live(Run(bs, ops)) == {} ==> Run(bs, ops) == [Block(0, size - HEADER, true)]
    decreases |ops|
  {
    if ops == [] {
      if Live(bs) == {} { NothingLive(bs, size); }
    } else {
      match ops[0] {
        case Malloc(n) =>
          var i := FirstFit(bs, Align8(n), 0);
          if n != 0 && i < |bs| { AllocKeeps(bs, i, Align8(n), size); }
        case Free(i) => ReleaseKeeps(bs, i, size);
      }
      RunKeeps(Apply(bs, ops[0]), ops[1..], size);
    }
  }

  /** Two requests for 64 bytes and a free of the first, from heap_init on. */
  lemma ThreeCalls(size: nat)
    requires size >= 3 * HEADER + 157
    ensures Apply([Block(0, size - HEADER, true)], Malloc(64)) == [Block(0, 64, false), Block(21, size - 104, true)]
    ensures Apply([Block(0, 64, false), Block(21, size - 104, true)], Malloc(64)) ==
            [Block(0, 64, false), Block(21, 64, false), Block(42, size - 188, true)]
    ensures Apply([Block(0, 64, false), Block(21, 64, false), Block(42, size - 188, true)], Free(0)) ==
            [Block(0, 64, true), Block(21, 64, false), Block(42, size - 188, true)]
  {
  }

  /** Such a fit is three calls away from heap_init: the next request for 64 bytes meets it. */
  lemma ExactFitArises(size: nat)
    requires size >= 3 * HEADER + 157
    ensures var ops := [Malloc(64), Malloc(64), Free(0)];
            var bs := [Block(0, size - HEADER, true)];
            && AllowedRun(bs, ops) && FirstFit(Run(bs, ops), Align8(64), 0) == 0
            && Run(bs, ops)[0].size - Align8(64) < HEADER
  {
    ThreeCalls(size);
    hide Apply;
    var b2 := [Block(0, 64, false), Block(21, 64, false), Block(42, size - 188, true)];
    assert Run(b2, [Free(0)]) == Run(Apply(b2, Free(0)), []);
    assert Run([Block(0, 64, false), Block(21, size - 104, true)], [Malloc(64), Free(0)]) == Run(b2, [Free(0)]);
  }
}

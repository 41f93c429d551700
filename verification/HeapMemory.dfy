/** The kernel heap on the words of memory (kernel/mm/heap.c): headers linked in both directions,
    written in place by kmalloc, split_block, merge_free and kfree. */
module HeapMemory {
  import opened Bytes
  import opened Heap

  const HEAP_MAGIC: nat := 0x57AC4B05
  // fields of block_header_t, in words
  const MAGIC_F: nat := 0
  const SIZE_F: nat := 1
  const FREE_F: nat := 2
  const NEXT_F: nat := 3
  const PREV_F: nat := 4

  function Addr(start: nat, at: nat): nat { start + 4 * at }

  /** The word offset a pointer into the region stands for. */
  function At(start: nat, p: nat): nat
    requires p >= start
  {
    (p - start) / 4
  }

  function NextPtr(bs: seq<Block>, start: nat, i: nat): nat {
    if i + 1 < |bs| then Addr(start, bs[i + 1].at) else 0
  }

  function PrevPtr(bs: seq<Block>, start: nat, i: nat): nat {
    if 0 < i <= |bs| then Addr(start, bs[i - 1].at) else 0
  }

  /** The header of block i is in memory. */
  ghost predicate HeaderAt(m: seq<nat>, start: nat, bs: seq<Block>, i: nat)
    requires i < |bs|
  {
    var at := bs[i].at;
    && at + HEADER_WORDS <= |m|
    && m[at + MAGIC_F] == HEAP_MAGIC && m[at + SIZE_F] == bs[i].size
    && m[at + FREE_F] == (if bs[i].free then 1 else 0)
    && m[at + NEXT_F] == NextPtr(bs, start, i) && m[at + PREV_F] == PrevPtr(bs, start, i)
  }

  /** Memory holds this block list: every header, next and prev being inverse of each other. */
  ghost predicate Represents(m: seq<nat>, start: nat, bs: seq<Block>) {
    forall i: nat | i < |bs| :: HeaderAt(m, start, bs, i)
  }

  ghost predicate IsHeap(m: seq<nat>, start: nat, bs: seq<Block>, size: nat) {
    && start > 0 && start + size + HEADER < U32 && size + HEADER <= 4 * |m|
    && WellFormed(bs, size) && Represents(m, start, bs)
  }

  /** The contents of surviving live allocations are untouched. */
  ghost predicate KeepsPayloads(m: seq<nat>, m': seq<nat>, bs: seq<Block>, bs': seq<Block>) {
    && |m'| == |m|
    && forall b, x: nat | b in bs && b in bs' && !b.free && b.at + HEADER_WORDS <= x < |m| && 4 * (x + 1) <= End(b) ::
         m'[x] == m[x]
  }

  // ---------------------------------------------------------------- splitting

  /** The words that kmalloc writes when it takes the block at w, as coded. */
  function SplitWords(m: seq<nat>, start: nat, w: nat, need: nat): (r: seq<nat>)
    requires w + HEADER_WORDS + need / 4 + HEADER_WORDS <= |m|
    requires m[w + NEXT_F] != 0 ==> m[w + NEXT_F] >= start && At(start, m[w + NEXT_F]) + HEADER_WORDS <= |m|
    ensures |r| == |m|
  {
    var leftover := (m[w + SIZE_F] - need - HEADER) % U32;
    if leftover <= HEADER + 8 then m else
      var nw := w + HEADER_WORDS + need / 4;
      var m1 := m[nw + MAGIC_F := HEAP_MAGIC][nw + SIZE_F := leftover][nw + FREE_F := 1]
                 [nw + NEXT_F := m[w + NEXT_F]][nw + PREV_F := Addr(start, w)];
      var m2 := if m[w + NEXT_F] != 0 then m1[At(start, m[w + NEXT_F]) + PREV_F := Addr(start, nw)] else m1;
      m2[w + NEXT_F := Addr(start, nw)][w + SIZE_F := need]
  }

  function AllocWords(m: seq<nat>, start: nat, w: nat, need: nat): (r: seq<nat>)
    requires w + HEADER_WORDS + need / 4 + HEADER_WORDS <= |m|
    requires m[w + NEXT_F] != 0 ==> m[w + NEXT_F] >= start && At(start, m[w + NEXT_F]) + HEADER_WORDS <= |m|
    ensures |r| == |m|
  {
    SplitWords(m, start, w, need)[w + FREE_F := 0][w + MAGIC_F := HEAP_MAGIC]
  }

  lemma WordsInRange(m: seq<nat>, start: nat, bs: seq<Block>, size: nat, i: nat, need: nat)
    requires IsHeap(m, start, bs, size) && i < |bs| && need <= bs[i].size
    ensures var w := bs[i].at;
            && w + HEADER_WORDS + need / 4 + HEADER_WORDS <= |m|
            && (m[w + NEXT_F] != 0 <==> i + 1 < |bs|)
            && (i + 1 < |bs| ==> m[w + NEXT_F] >= start && At(start, m[w + NEXT_F]) == bs[i + 1].at)
            && (i + 1 < |bs| ==> bs[i + 1].at + HEADER_WORDS <= |m|)
    ensures bs[i].size < U32
  {
    InRegion(bs, size, i);
    assert HeaderAt(m, start, bs, i);
    if i + 1 < |bs| { InRegion(bs, size, i + 1); }
  }

  /** A proper split leaves memory representing the split list. */
  lemma AllocRepresents(m: seq<nat>, start: nat, bs: seq<Block>, size: nat, i: nat, need: nat)
    requires IsHeap(m, start, bs, size) && i < |bs| && Fits(bs[i], need) && need % 8 == 0
    requires bs[i].size - need >= HEADER
    ensures bs[i].at + HEADER_WORDS + need / 4 + HEADER_WORDS <= |m|
    ensures m[bs[i].at + NEXT_F] != 0 ==>
              m[bs[i].at + NEXT_F] >= start && At(start, m[bs[i].at + NEXT_F]) + HEADER_WORDS <= |m|
    ensures var r := AllocWords(m, start, bs[i].at, need);
            IsHeap(r, start, Alloc(bs, i, need), size) && KeepsPayloads(m, r, bs, Alloc(bs, i, need))
  {
    hide HeaderAt, AllocWords, WellFormed;
    WordsInRange(m, start, bs, size, i, need);
    AllocKeeps(bs, i, need, size);
    if SplitsAsMeant(bs[i], need) {
      SplitHeaders(m, start, bs, size, i, need);
      SplitPayloads(m, start, bs, size, i, need);
    } else {
      TakeRepresents(m, start, bs, size, i, need);
    }
  }

  lemma TakeRepresents(m: seq<nat>, start: nat, bs: seq<Block>, size: nat, i: nat, need: nat)
    requires IsHeap(m, start, bs, size) && i < |bs| && Fits(bs[i], need) && need % 8 == 0
    requires bs[i].size - need >= HEADER && !SplitsAsMeant(bs[i], need)
    requires bs[i].at + HEADER_WORDS + need / 4 + HEADER_WORDS <= |m|
    requires m[bs[i].at + NEXT_F] != 0 ==>
               m[bs[i].at + NEXT_F] >= start && At(start, m[bs[i].at + NEXT_F]) + HEADER_WORDS <= |m|
    ensures var r := AllocWords(m, start, bs[i].at, need);
            Represents(r, start, Alloc(bs, i, need)) && KeepsPayloads(m, r, bs, Alloc(bs, i, need))
  {
    var w := bs[i].at;
    WordsInRange(m, start, bs, size, i, need);
    var r := AllocWords(m, start, w, need);
    assert r == m[w + FREE_F := 0] by { assert HeaderAt(m, start, bs, i); }
    hide AllocWords, HeaderAt, Coalesced;
    forall j: nat | j < |bs| ensures HeaderAt(r, start, Alloc(bs, i, need), j) {
      TakeHeader(m, r, start, bs, size, i, j);
    }
    TakePayloads(m, r, start, bs, size, i);
  }

  lemma TakeHeader(m: seq<nat>, r: seq<nat>, start: nat, bs: seq<Block>, size: nat, i: nat, j: nat)
    requires Tiles(bs, size) && i < |bs| && j < |bs| && HeaderAt(m, start, bs, j)
    requires bs[i].at + HEADER_WORDS <= |m| && r == m[bs[i].at + FREE_F := 0]
    ensures HeaderAt(r, start, bs[i := bs[i].(free := false)], j)
  {
    if j < i { Ordered(bs, size, j, i); } else if j > i { Ordered(bs, size, i, j); }
    hide Tiles;
    var c := bs[i := bs[i].(free := false)];
    assert NextPtr(c, start, j) == NextPtr(bs, start, j) && PrevPtr(c, start, j) == PrevPtr(bs, start, j);
  }

  lemma TakePayloads(m: seq<nat>, r: seq<nat>, start: nat, bs: seq<Block>, size: nat, i: nat)
    requires Tiles(bs, size) && i < |bs| && bs[i].free
    requires bs[i].at + HEADER_WORDS <= |m| && r == m[bs[i].at + FREE_F := 0]
    ensures KeepsPayloads(m, r, bs, bs[i := bs[i].(free := false)])
  {
    forall b, x: nat | b in bs && !b.free && b.at + HEADER_WORDS <= x < |m| && 4 * (x + 1) <= End(b) ensures r[x] == m[x] {
      var k :| 0 <= k < |bs| && bs[k] == b;
      if k < i { Ordered(bs, size, k, i); } else if k > i { Ordered(bs, size, i, k); }
    }
  }

  /** What word x is after a split, when the new header does not reach the next block at nx. */
  ghost predicate SplitValue(m: seq<nat>, r: seq<nat>, start: nat, w: nat, nw: nat, need: nat, rest: nat, next: nat, nx: nat, x: nat)
    requires x < |m| && x < |r|
  {
    r[x] ==
    if x == w + MAGIC_F then HEAP_MAGIC else if x == w + SIZE_F then need
    else if x == w + FREE_F then 0 else if x == w + NEXT_F then Addr(start, nw)
    else if x == nw + MAGIC_F then HEAP_MAGIC else if x == nw + SIZE_F then rest
    else if x == nw + FREE_F then 1 else if x == nw + NEXT_F then next
    else if x == nw + PREV_F then Addr(start, w)
    else if next != 0 && x == nx + PREV_F then Addr(start, nw)
    else m[x]
  }

  lemma SplitWordAt(m: seq<nat>, start: nat, w: nat, need: nat, nx: nat, x: nat)
    requires w + HEADER_WORDS + need / 4 + HEADER_WORDS <= |m| && x < |m|
    requires m[w + NEXT_F] != 0 ==> m[w + NEXT_F] >= start && At(start, m[w + NEXT_F]) == nx && nx + HEADER_WORDS <= |m|
    requires var nw := w + HEADER_WORDS + need / 4; m[w + NEXT_F] != 0 ==> nw + HEADER_WORDS <= nx
    requires (m[w + SIZE_F] - need - HEADER) % U32 > HEADER + 8
    ensures SplitValue(m, AllocWords(m, start, w, need), start, w, w + HEADER_WORDS + need / 4, need,
                       (m[w + SIZE_F] - need - HEADER) % U32, m[w + NEXT_F], nx, x)
  {
    hide At;
  }

  /** The geometry of a split: where the new header and the next block lie. */
  lemma SplitPlace(m: seq<nat>, start: nat, bs: seq<Block>, size: nat, i: nat, need: nat)
    requires IsHeap(m, start, bs, size) && i < |bs| && Fits(bs[i], need) && need % 8 == 0 && SplitsAsMeant(bs[i], need)
    ensures var (w, nw) := (bs[i].at, bs[i].at + HEADER_WORDS + need / 4);
            && nw + HEADER_WORDS <= |m| && m[w + SIZE_F] == bs[i].size
            && WrappedLeftover(bs[i], need) == Leftover(bs[i], need)
            && m[w + NEXT_F] == NextPtr(bs, start, i) && m[w + PREV_F] == PrevPtr(bs, start, i)
            && (i + 1 < |bs| ==> nw + HEADER_WORDS <= bs[i + 1].at && bs[i + 1].at + HEADER_WORDS <= |m|)
            && (forall j | 0 <= j < i :: bs[j].at + HEADER_WORDS <= w)
            && (forall j | i < j < |bs| :: nw + HEADER_WORDS <= bs[j].at)
            && (forall j | i + 1 < j < |bs| :: bs[i + 1].at + HEADER_WORDS <= bs[j].at)
  {
    WordsInRange(m, start, bs, size, i, need);
    assert HeaderAt(m, start, bs, i);
    hide HeaderAt, AllocWords;
    forall j | 0 <= j < i ensures bs[j].at + HEADER_WORDS <= bs[i].at { Ordered(bs, size, j, i); }
    forall j | i < j < |bs| ensures End(bs[i]) <= 4 * bs[j].at { Ordered(bs, size, i, j); }
    forall j | i + 1 < j < |bs| ensures bs[i + 1].at + HEADER_WORDS <= bs[j].at { Ordered(bs, size, i + 1, j); }
  }

  /** A header that no write touched, in a list where its block and neighbours kept their places. */
  lemma SameHeader(m: seq<nat>, r: seq<nat>, start: nat, bs: seq<Block>, c: seq<Block>, j: nat, l: nat)
    requires j < |bs| && l < |c| && c[l] == bs[j] && |r| == |m| && HeaderAt(m, start, bs, j)
    requires NextPtr(c, start, l) == NextPtr(bs, start, j)
    requires var at := bs[j].at;
             r[at] == m[at] && r[at + SIZE_F] == m[at + SIZE_F] && r[at + FREE_F] == m[at + FREE_F] && r[at + NEXT_F] == m[at + NEXT_F]
    requires r[bs[j].at + PREV_F] == PrevPtr(c, start, l)
    ensures HeaderAt(r, start, c, l)
  {
  }

  lemma SplitHeaders(m: seq<nat>, start: nat, bs: seq<Block>, size: nat, i: nat, need: nat)
    requires IsHeap(m, start, bs, size) && i < |bs| && Fits(bs[i], need) && need % 8 == 0 && SplitsAsMeant(bs[i], need)
    requires bs[i].at + HEADER_WORDS + need / 4 + HEADER_WORDS <= |m|
    requires m[bs[i].at + NEXT_F] != 0 ==>
               m[bs[i].at + NEXT_F] >= start && At(start, m[bs[i].at + NEXT_F]) + HEADER_WORDS <= |m|
    ensures Represents(AllocWords(m, start, bs[i].at, need), start, Alloc(bs, i, need))
  {
    hide Tiles, Coalesced, AllocWords, HeaderAt, SplitValue, Split;
    SplitPlace(m, start, bs, size, i, need);
    var (w, nx, rest) := (bs[i].at, if i + 1 < |bs| then bs[i + 1].at else 0, Leftover(bs[i], need));
    var r := AllocWords(m, start, w, need);
    var nw := w + HEADER_WORDS + need / 4;
    forall x: nat | x < |m| ensures SplitValue(m, r, start, w, nw, need, rest, NextPtr(bs, start, i), nx, x) {
      SplitWordAt(m, start, w, need, nx, x);
    }
    var c := Split(bs, i, need);
    hide At, WrappedLeftover;
    forall j: nat | j < |c| ensures HeaderAt(r, start, c, j) {
      if j == i || j == i + 1 {
        SplitOwnHeader(m, r, start, bs, i, need, nx, j);
      } else {
        var o := if j < i then j else j - 1;
        assert HeaderAt(m, start, bs, o);
        SplitOtherHeader(m, r, start, bs, i, need, nx, o);
      }
    }
  }

  /** The words that a split writes, one by one. */
  ghost predicate SplitWritten(m: seq<nat>, r: seq<nat>, start: nat, w: nat, nw: nat, need: nat, rest: nat, next: nat, nx: nat) {
    |r| == |m| && forall x: nat | x < |m| :: SplitValue(m, r, start, w, nw, need, rest, next, nx, x)
  }

  lemma SplitOwnHeader(m: seq<nat>, r: seq<nat>, start: nat, bs: seq<Block>, i: nat, need: nat, nx: nat, j: nat)
    requires i < |bs| && SplitsAsMeant(bs[i], need)
    requires SplitWritten(m, r, start, bs[i].at, bs[i].at + HEADER_WORDS + need / 4, need, Leftover(bs[i], need),
                          NextPtr(bs, start, i), nx)
    requires var nw := bs[i].at + HEADER_WORDS + need / 4;
             nw + HEADER_WORDS <= |m| && (i + 1 < |bs| ==> nw + HEADER_WORDS <= nx)
    requires m[bs[i].at + PREV_F] == PrevPtr(bs, start, i)
    requires j == i || j == i + 1
    ensures HeaderAt(r, start, Split(bs, i, need), j)
  {
    hide Split, SplitValue;
    var c := Split(bs, i, need);
    SplitFive(m, r, start, bs[i].at, bs[i].at + HEADER_WORDS + need / 4, need, Leftover(bs[i], need), NextPtr(bs, start, i), nx, c[j].at);
  }

  lemma SplitOtherHeader(m: seq<nat>, r: seq<nat>, start: nat, bs: seq<Block>, i: nat, need: nat, nx: nat, j: nat)
    requires i < |bs| && SplitsAsMeant(bs[i], need)
    requires SplitWritten(m, r, start, bs[i].at, bs[i].at + HEADER_WORDS + need / 4, need, Leftover(bs[i], need),
                          NextPtr(bs, start, i), nx)
    requires j < |bs| && j != i && HeaderAt(m, start, bs, j)
    requires var (w, nw) := (bs[i].at, bs[i].at + HEADER_WORDS + need / 4);
             && (i + 1 < |bs| ==> nx == bs[i + 1].at && start > 0 && nw + HEADER_WORDS <= nx)
             && (j < i ==> bs[j].at + HEADER_WORDS <= w)
             && (j > i ==> nw + HEADER_WORDS <= bs[j].at)
             && (j > i + 1 ==> nx + HEADER_WORDS <= bs[j].at)
    ensures HeaderAt(r, start, Split(bs, i, need), if j < i then j else j + 1)
  {
    hide Split, SplitValue;
    var c := Split(bs, i, need);
    var l := if j < i then j else j + 1;
    SplitFive(m, r, start, bs[i].at, bs[i].at + HEADER_WORDS + need / 4, need, Leftover(bs[i], need), NextPtr(bs, start, i), nx, bs[j].at);
    assert c[l] == bs[j] && (l + 1 < |c| ==> c[l + 1].at == bs[j + 1].at) && (0 < l != i + 2 ==> c[l - 1].at == bs[j - 1].at);
    SameHeader(m, r, start, bs, c, j, l);
  }

  /** The five header words at `at`, which is the split block, the new one, or one apart from both. */
  lemma SplitFive(m: seq<nat>, r: seq<nat>, start: nat, w: nat, nw: nat, need: nat, rest: nat, next: nat, nx: nat, at: nat)
    requires SplitWritten(m, r, start, w, nw, need, rest, next, nx)
    requires at + HEADER_WORDS <= |m| && w + HEADER_WORDS <= nw
    requires at == w || at == nw || at + HEADER_WORDS <= w || nw + HEADER_WORDS <= at
    requires next != 0 ==> nw + HEADER_WORDS <= nx && (at == nx || at + HEADER_WORDS <= nx || nx + HEADER_WORDS <= at)
    ensures && r[at] == (if at == w || at == nw then HEAP_MAGIC else m[at])
            && r[at + SIZE_F] == (if at == w then need else if at == nw then rest else m[at + SIZE_F])
            && r[at + FREE_F] == (if at == w then 0 else if at == nw then 1 else m[at + FREE_F])
            && r[at + NEXT_F] == (if at == w then Addr(start, nw) else if at == nw then next else m[at + NEXT_F])
            && r[at + PREV_F] == (if at == nw then Addr(start, w) else if next != 0 && at == nx then Addr(start, nw) else m[at + PREV_F])
  {
    assert SplitValue(m, r, start, w, nw, need, rest, next, nx, at);
    assert SplitValue(m, r, start, w, nw, need, rest, next, nx, at + SIZE_F);
    assert SplitValue(m, r, start, w, nw, need, rest, next, nx, at + FREE_F);
    assert SplitValue(m, r, start, w, nw, need, rest, next, nx, at + NEXT_F);
    assert SplitValue(m, r, start, w, nw, need, rest, next, nx, at + PREV_F);
  }

  lemma SplitPayloads(m: seq<nat>, start: nat, bs: seq<Block>, size: nat, i: nat, need: nat)
    requires IsHeap(m, start, bs, size) && i < |bs| && Fits(bs[i], need) && need % 8 == 0 && SplitsAsMeant(bs[i], need)
    requires bs[i].at + HEADER_WORDS + need / 4 + HEADER_WORDS <= |m|
    requires m[bs[i].at + NEXT_F] != 0 ==>
               m[bs[i].at + NEXT_F] >= start && At(start, m[bs[i].at + NEXT_F]) + HEADER_WORDS <= |m|
    ensures KeepsPayloads(m, AllocWords(m, start, bs[i].at, need), bs, Alloc(bs, i, need))
  {
    hide AllocWords, HeaderAt, Alloc, Coalesced;
    SplitPlace(m, start, bs, size, i, need);
    var (r, nx) := (AllocWords(m, start, bs[i].at, need), if i + 1 < |bs| then bs[i + 1].at else 0);
    forall b, x: nat | b in bs && !b.free && b.at + HEADER_WORDS <= x < |m| && 4 * (x + 1) <= End(b) ensures r[x] == m[x] {
      var k :| 0 <= k < |bs| && bs[k] == b;
      if k < i { Ordered(bs, size, k, i); }
      SplitWordAt(m, start, bs[i].at, need, nx, x);
    }
  }

  /** On an exact or nearly exact fit the words written are those of no heap at all: a block of almost
      2^32 bytes is linked behind the one handed out. */
  lemma NearExactCorrupts(m: seq<nat>, start: nat, bs: seq<Block>, size: nat, i: nat, need: nat, c: seq<Block>)
    requires IsHeap(m, start, bs, size) && i < |bs| && Fits(bs[i], need) && need % 8 == 0
    requires bs[i].size - need < HEADER
    ensures bs[i].at + HEADER_WORDS + need / 4 + HEADER_WORDS <= |m|
    ensures m[bs[i].at + NEXT_F] != 0 ==>
              m[bs[i].at + NEXT_F] >= start && At(start, m[bs[i].at + NEXT_F]) + HEADER_WORDS <= |m|
    ensures !IsHeap(AllocWords(m, start, bs[i].at, need), start, c, size)
  {
    WordsInRange(m, start, bs, size, i, need);
    NearExactWords(m, start, bs, size, i, need);
    hide AllocWords;
    NoSuchHeap(m, AllocWords(m, start, bs[i].at, need), start, bs, size, i, bs[i].at + HEADER_WORDS + need / 4, c);
  }

  lemma NoSuchHeap(m: seq<nat>, r: seq<nat>, start: nat, bs: seq<Block>, size: nat, i: nat, nw: nat, c: seq<Block>)
    requires IsHeap(m, start, bs, size) && i < |bs| && |r| == |m|
    requires bs[i].at + HEADER_WORDS <= |m| && nw + HEADER_WORDS <= |m|
    requires r[bs[i].at + NEXT_F] == Addr(start, nw) && r[nw + SIZE_F] > size
    requires forall x: nat | x < bs[i].at :: r[x] == m[x]
    ensures !IsHeap(r, start, c, size)
  {
    if IsHeap(r, start, c, size) {
      SamePrefix(m, r, start, bs, c, size, i);
      assert HeaderAt(r, start, c, i);
      hide Tiles, Coalesced;
      assert i + 1 < |c| && c[i + 1].at == nw;
      assert HeaderAt(r, start, c, i + 1);
      TooBig(c, size, i + 1);
      assert false;
    }
  }

  lemma TooBig(c: seq<Block>, size: nat, i: nat)
    requires WellFormed(c, size) && i < |c|
    ensures c[i].size < size
  {
    InRegion(c, size, i);
  }

  lemma NearExactWords(m: seq<nat>, start: nat, bs: seq<Block>, size: nat, i: nat, need: nat)
    requires IsHeap(m, start, bs, size) && i < |bs| && Fits(bs[i], need) && need % 8 == 0
    requires bs[i].size - need < HEADER
    requires bs[i].at + HEADER_WORDS + need / 4 + HEADER_WORDS <= |m|
    requires m[bs[i].at + NEXT_F] != 0 ==>
               m[bs[i].at + NEXT_F] >= start && At(start, m[bs[i].at + NEXT_F]) + HEADER_WORDS <= |m|
    ensures var r, w, nw := AllocWords(m, start, bs[i].at, need), bs[i].at, bs[i].at + HEADER_WORDS + need / 4;
            && r[w + NEXT_F] == Addr(start, nw) && r[nw + SIZE_F] > size
            && forall x: nat | x < w :: r[x] == m[x]
  {
    WordsInRange(m, start, bs, size, i, need);
    assert HeaderAt(m, start, bs, i);
    hide WellFormed, Represents, AllocWords;
    LeftoverWraps(bs[i], need);
    NearWords(m, start, bs[i].at, need);
  }

  lemma LeftoverWraps(b: Block, need: nat)
    requires need <= b.size < U32 && b.size - need < HEADER
    ensures (b.size - need - HEADER) % U32 == b.size - need - HEADER + U32
  {
  }

  lemma NearWords(m: seq<nat>, start: nat, w: nat, need: nat)
    requires w + HEADER_WORDS + need / 4 + HEADER_WORDS <= |m|
    requires m[w + NEXT_F] != 0 ==>
               m[w + NEXT_F] >= start && At(start, m[w + NEXT_F]) + HEADER_WORDS <= |m|
               && w + HEADER_WORDS + need / 4 <= At(start, m[w + NEXT_F])
    requires (m[w + SIZE_F] - need - HEADER) % U32 > HEADER + 8
    ensures var r, nw := AllocWords(m, start, w, need), w + HEADER_WORDS + need / 4;
            && r[w + NEXT_F] == Addr(start, nw) && r[nw + SIZE_F] == (m[w + SIZE_F] - need - HEADER) % U32
            && forall x: nat | x < w :: r[x] == m[x]
  {
    hide At;
  }

  /** Two heaps whose memories agree on the headers before block i agree on where it is. */
  lemma {:induction false} SamePrefix(m: seq<nat>, r: seq<nat>, start: nat, bs: seq<Block>, c: seq<Block>, size: nat, i: nat)
    requires IsHeap(m, start, bs, size) && IsHeap(r, start, c, size) && i < |bs| && |r| == |m|
    requires bs[i].at <= |m| && forall x: nat | x < bs[i].at :: r[x] == m[x]
    ensures i < |c| && c[i].at == bs[i].at
  {
    if i > 0 {
      Ordered(bs, size, i - 1, i);
      SamePrefix(m, r, start, bs, c, size, i - 1);
      assert HeaderAt(m, start, bs, i - 1) && HeaderAt(r, start, c, i - 1);
      assert r[bs[i - 1].at + NEXT_F] == m[bs[i - 1].at + NEXT_F];
    }
  }

  // ---------------------------------------------------------------- coalescing

  /** The words written when the block at w absorbs the block behind it. */
  function AbsorbWords(m: seq<nat>, start: nat, w: nat): (r: seq<nat>)
    requires w + HEADER_WORDS <= |m| && m[w + NEXT_F] >= start && At(start, m[w + NEXT_F]) + HEADER_WORDS <= |m|
    requires var nx := At(start, m[w + NEXT_F]);
             m[nx + NEXT_F] != 0 ==> m[nx + NEXT_F] >= start && At(start, m[nx + NEXT_F]) + HEADER_WORDS <= |m|
    ensures |r| == |m|
  {
    var nx := At(start, m[w + NEXT_F]);
    var m1 := m[w + SIZE_F := m[w + SIZE_F] + HEADER + m[nx + SIZE_F]][w + NEXT_F := m[nx + NEXT_F]];
    if m[nx + NEXT_F] != 0 then m1[At(start, m[nx + NEXT_F]) + PREV_F := Addr(start, w)] else m1
  }

  /** Memory that represents a tiling, coalesced or not. */
  ghost predicate IsTiling(m: seq<nat>, start: nat, bs: seq<Block>, size: nat) {
    && start > 0 && start + size + HEADER < U32 && size + HEADER <= 4 * |m|
    && Tiles(bs, size) && Represents(m, start, bs)
  }

  lemma LinksInRange(m: seq<nat>, start: nat, bs: seq<Block>, size: nat, i: nat)
    requires IsTiling(m, start, bs, size) && i < |bs|
    ensures var w := bs[i].at;
            && w + HEADER_WORDS <= |m|
            && (m[w + NEXT_F] != 0 <==> i + 1 < |bs|) && (m[w + PREV_F] != 0 <==> i > 0)
            && (i + 1 < |bs| ==> m[w + NEXT_F] >= start && At(start, m[w + NEXT_F]) == bs[i + 1].at && bs[i + 1].at + HEADER_WORDS <= |m|)
            && (i > 0 ==> m[w + PREV_F] >= start && At(start, m[w + PREV_F]) == bs[i - 1].at && bs[i - 1].at + HEADER_WORDS <= |m|)
  {
    assert HeaderAt(m, start, bs, i);
    InRegion(bs, size, i);
    if i + 1 < |bs| { InRegion(bs, size, i + 1); }
    if i > 0 { InRegion(bs, size, i - 1); }
  }

  /** What a word is after block i absorbed the block behind it. */
  ghost predicate AbsorbValue(m: seq<nat>, r: seq<nat>, start: nat, bs: seq<Block>, i: nat, x: nat)
    requires i + 1 < |bs| && x < |m| && x < |r|
  {
    r[x] == if x == bs[i].at + SIZE_F then bs[i].size + HEADER + bs[i + 1].size
            else if x == bs[i].at + NEXT_F then NextPtr(bs, start, i + 1)
            else if i + 2 < |bs| && x == bs[i + 2].at + PREV_F then Addr(start, bs[i].at)
            else m[x]
  }

  lemma AbsorbWordAt(m: seq<nat>, start: nat, bs: seq<Block>, size: nat, i: nat, x: nat)
    requires IsTiling(m, start, bs, size) && i + 1 < |bs| && x < |m|
    ensures var w := bs[i].at;
            && w + HEADER_WORDS <= |m| && m[w + NEXT_F] >= start && At(start, m[w + NEXT_F]) + HEADER_WORDS <= |m|
            && var nx := At(start, m[w + NEXT_F]);
               m[nx + NEXT_F] != 0 ==> m[nx + NEXT_F] >= start && At(start, m[nx + NEXT_F]) + HEADER_WORDS <= |m|
    ensures AbsorbValue(m, AbsorbWords(m, start, bs[i].at), start, bs, i, x)
  {
    hide Tiles;
    LinksInRange(m, start, bs, size, i);
    LinksInRange(m, start, bs, size, i + 1);
    assert HeaderAt(m, start, bs, i) && HeaderAt(m, start, bs, i + 1);
    if i + 2 < |bs| { Ordered(bs, size, i, i + 2); }
  }

  /** Absorbing the next free block leaves memory representing the shorter list. */
  lemma AbsorbRepresents(m: seq<nat>, start: nat, bs: seq<Block>, size: nat, i: nat)
    requires IsTiling(m, start, bs, size) && i + 1 < |bs| && bs[i].free && bs[i + 1].free
    ensures var w := bs[i].at;
            && w + HEADER_WORDS <= |m| && m[w + NEXT_F] >= start && At(start, m[w + NEXT_F]) + HEADER_WORDS <= |m|
            && var nx := At(start, m[w + NEXT_F]);
               m[nx + NEXT_F] != 0 ==> m[nx + NEXT_F] >= start && At(start, m[nx + NEXT_F]) + HEADER_WORDS <= |m|
    ensures var r := AbsorbWords(m, start, bs[i].at);
            IsTiling(r, start, Absorb(bs, i), size) && KeepsPayloads(m, r, bs, Absorb(bs, i))
  {
    AbsorbKeepsTiles(bs, i, size);
    AbsorbWordAt(m, start, bs, size, i, 0);
    var r := AbsorbWords(m, start, bs[i].at);
    hide AbsorbWords, HeaderAt, Tiles, AbsorbValue;
    forall x: nat | x < |m| ensures AbsorbValue(m, r, start, bs, i, x) {
      AbsorbWordAt(m, start, bs, size, i, x);
    }
    forall j: nat | j < |bs| - 1 ensures HeaderAt(r, start, Absorb(bs, i), j) {
      AbsorbHeader(m, r, start, bs, size, i, j);
    }
    AbsorbPayloads(m, r, start, bs, size, i);
  }

  lemma AbsorbHeader(m: seq<nat>, r: seq<nat>, start: nat, bs: seq<Block>, size: nat, i: nat, j: nat)
    requires IsTiling(m, start, bs, size) && i + 1 < |bs| && bs[i].free && bs[i + 1].free && j < |bs| - 1 && |r| == |m|
    requires forall x: nat | x < |m| :: AbsorbValue(m, r, start, bs, i, x)
    ensures HeaderAt(r, start, Absorb(bs, i), j)
  {
    var c := Absorb(bs, i);
    var o := if j <= i then j else j + 1;
    if j < i { Ordered(bs, size, j, i); } else if j > i { Ordered(bs, size, i, o); }
    if i + 2 < |bs| {
      if o < i + 2 { Ordered(bs, size, o, i + 2); } else { Ordered(bs, size, i + 2, o); }
    }
    assert HeaderAt(m, start, bs, o);
    hide Tiles, Represents, Absorb, AbsorbValue;
    AbsorbWords5(m, r, start, bs, i, o);
    if j == i {
      assert NextPtr(c, start, i) == NextPtr(bs, start, i + 1) && PrevPtr(c, start, i) == PrevPtr(bs, start, i);
    } else {
      assert NextPtr(c, start, j) == NextPtr(bs, start, o);
      SameHeader(m, r, start, bs, c, o, j);
    }
  }

  /** The five header words of block o after block i absorbed its successor. */
  lemma AbsorbWords5(m: seq<nat>, r: seq<nat>, start: nat, bs: seq<Block>, i: nat, o: nat)
    requires i + 1 < |bs| && o < |bs| && o != i + 1 && |r| == |m| && bs[o].at + HEADER_WORDS <= |m|
    requires o < i ==> bs[o].at + HEADER_WORDS <= bs[i].at
    requires o > i ==> bs[i].at + HEADER_WORDS <= bs[o].at
    requires i + 2 < |bs| ==> (o < i + 2 ==> bs[o].at + HEADER_WORDS <= bs[i + 2].at)
                              && (o > i + 2 ==> bs[i + 2].at + HEADER_WORDS <= bs[o].at)
    requires forall x: nat | x < |m| :: AbsorbValue(m, r, start, bs, i, x)
    ensures var at := bs[o].at;
            && r[at] == m[at] && r[at + FREE_F] == m[at + FREE_F]
            && r[at + SIZE_F] == (if o == i then bs[i].size + HEADER + bs[i + 1].size else m[at + SIZE_F])
            && r[at + NEXT_F] == (if o == i then NextPtr(bs, start, i + 1) else m[at + NEXT_F])
            && r[at + PREV_F] == (if o == i + 2 then Addr(start, bs[i].at) else m[at + PREV_F])
  {
    var at := bs[o].at;
    assert AbsorbValue(m, r, start, bs, i, at) && AbsorbValue(m, r, start, bs, i, at + SIZE_F)
        && AbsorbValue(m, r, start, bs, i, at + FREE_F) && AbsorbValue(m, r, start, bs, i, at + NEXT_F)
        && AbsorbValue(m, r, start, bs, i, at + PREV_F);
  }

  lemma AbsorbElsewhere(m: seq<nat>, r: seq<nat>, start: nat, bs: seq<Block>, i: nat, x: nat)
    requires i + 1 < |bs| && x < |m| && |r| == |m| && AbsorbValue(m, r, start, bs, i, x)
    requires x < bs[i].at || bs[i].at + HEADER_WORDS <= x
    requires i + 2 < |bs| ==> x < bs[i + 2].at || bs[i + 2].at + HEADER_WORDS <= x
    ensures r[x] == m[x]
  {
  }

  lemma AbsorbPayloads(m: seq<nat>, r: seq<nat>, start: nat, bs: seq<Block>, size: nat, i: nat)
    requires IsTiling(m, start, bs, size) && i + 1 < |bs| && bs[i].free && bs[i + 1].free && |r| == |m|
    requires forall x: nat | x < |m| :: AbsorbValue(m, r, start, bs, i, x)
    ensures KeepsPayloads(m, r, bs, Absorb(bs, i))
  {
    hide Represents, Absorb, AbsorbValue;
    forall b, x: nat | b in bs && !b.free && b.at + HEADER_WORDS <= x < |m| && 4 * (x + 1) <= End(b) ensures r[x] == m[x] {
      var k :| 0 <= k < |bs| && bs[k] == b;
      if k < i { Ordered(bs, size, k, i); } else { Ordered(bs, size, i, k); }
      if i + 2 < |bs| {
        if k < i + 2 { Ordered(bs, size, k, i + 2); } else { Ordered(bs, size, i + 2, k); }
      }
      AbsorbElsewhere(m, r, start, bs, i, x);
    }
  }

  // ---------------------------------------------------------------- what callers may do

  datatype Call =
    | Request(op: Op)
    | Stores(i: nat, x: nat, v: nat)

  predicate InPayload(b: Block, x: nat) { b.at + HEADER_WORDS <= x && 4 * (x + 1) <= End(b) }

  /** The payload is size / 4 whole words behind the header; of a block allocated for `need` bytes at least
      need / 4. */
  lemma PayloadWords(b: Block, x: nat)
    ensures InPayload(b, x) <==> 0 <= x - (b.at + HEADER / 4) < b.size / 4
  {}

  /** What callers owe: frees and stores name live blocks. */
  ghost predicate Legal(bs: seq<Block>, c: Call) {
    match c
    case Request(Malloc(n)) => n < U32
    case Request(Free(i)) => i < |bs| && !bs[i].free
    case Stores(i, x, v) => i < |bs| && !bs[i].free && InPayload(bs[i], x) && v < U32
  }

  /** The call is a request whose first fit leaves too little for a header. */
  ghost predicate NearExact(bs: seq<Block>, c: Call) {
    && c.Request? && c.op.Malloc? && c.op.n != 0
    && var i := FirstFit(bs, Align8(c.op.n), 0); i < |bs| && bs[i].size - Align8(c.op.n) < HEADER
  }

  ghost predicate Permitted(bs: seq<Block>, c: Call) { Legal(bs, c) && !NearExact(bs, c) }

  function AfterCall(bs: seq<Block>, c: Call): seq<Block> { if c.Request? then Apply(bs, c.op) else bs }

  ghost predicate Guarded(bs: seq<Block>, calls: seq<Call>)
    decreases |calls|
  {
    calls == [] || (Permitted(bs, calls[0]) && Guarded(AfterCall(bs, calls[0]), calls[1..]))
  }

  /** The same, except that the last call may be a nearly exact fit. */
  ghost predicate GuardedUntilLast(bs: seq<Block>, calls: seq<Call>)
    decreases |calls|
  {
    calls == [] || (if |calls| == 1 then Legal(bs, calls[0])
                    else Permitted(bs, calls[0]) && GuardedUntilLast(AfterCall(bs, calls[0]), calls[1..]))
  }

  function After(bs: seq<Block>, calls: seq<Call>): seq<Block>
    decreases |calls|
  {
    if calls == [] then bs else After(AfterCall(bs, calls[0]), calls[1..])
  }

  /** Four calls from heap_init that the code does not survive (see Serve): the last request meets a free
      block of just its size. */
  lemma FourthCallCorrupts(size: nat)
    requires size >= 3 * HEADER + 157
    ensures var calls := [Request(Malloc(64)), Request(Malloc(64)), Request(Free(0)), Request(Malloc(64))];
            var bs := [Block(0, size - HEADER, true)];
            GuardedUntilLast(bs, calls) && !Guarded(bs, calls)
  {
    ThreeCalls(size);
    hide Apply, Guarded, GuardedUntilLast;
    var m, f := Request(Malloc(64)), Request(Free(0));
    var b0, b1 := [Block(0, size - HEADER, true)], [Block(0, 64, false), Block(21, size - 104, true)];
    var b2 := [Block(0, 64, false), Block(21, 64, false), Block(42, size - 188, true)];
    var b3 := [Block(0, 64, true), Block(21, 64, false), Block(42, size - 188, true)];
    assert Permitted(b0, m) && Permitted(b1, m) && Permitted(b2, f) && Legal(b3, m) && NearExact(b3, m);
    GuardedNext(b3, m, []);
    GuardedNext(b2, f, [m]);
    GuardedNext(b1, m, [f, m]);
    GuardedNext(b0, m, [m, f, m]);
    assert [m] + [m, f, m] == [m, m, f, m] && [m] + [f, m] == [m, f, m] && [f] + [m] == [f, m] && [m] + [] == [m];
  }

  lemma GuardedNext(bs: seq<Block>, c: Call, calls: seq<Call>)
    ensures Guarded(bs, [c] + calls) <==> Permitted(bs, c) && Guarded(AfterCall(bs, c), calls)
    ensures GuardedUntilLast(bs, [c] + calls) <==>
            if calls == [] then Legal(bs, c) else Permitted(bs, c) && GuardedUntilLast(AfterCall(bs, c), calls)
  {
    assert ([c] + calls)[1..] == calls;
  }

  /** b is allocated at the start, at the end, and all the time between. */
  ghost predicate LivesThrough(bs: seq<Block>, calls: seq<Call>, b: Block)
    decreases |calls|
  {
    b in bs && !b.free && (calls == [] || LivesThrough(AfterCall(bs, calls[0]), calls[1..], b))
  }

  /** The word at x after the calls: what was stored there last, v when nothing was. */
  function LastStored(calls: seq<Call>, x: nat, v: nat): nat
    decreases |calls|
  {
    if calls == [] then v
    else LastStored(calls[1..], x, if calls[0].Stores? && calls[0].x == x then calls[0].v else v)
  }

  // ---------------------------------------------------------------- the allocator

  class KernelHeap {
    const mem: array<nat>      // the words from `start` on
    const start: nat           // address of the region
    const size: nat            // bytes of the region
    var head: nat              // heap_head
    ghost var Blocks: seq<Block>

    ghost predicate Valid()
      reads this, mem
    {
      head == start && IsHeap(mem[..], start, Blocks, size)
    }

    /** heap_init on memory that continues for at least a header behind the region. */
    constructor (memory: array<nat>, address: nat, bytes: nat)
      requires HEADER <= bytes && bytes + HEADER <= 4 * memory.Length
      requires 0 < address && address + bytes + HEADER < U32
      modifies memory
      ensures Valid() && mem == memory && start == address && size == bytes
      ensures Blocks == [Block(0, bytes - HEADER, true)]
    {
      mem, start, size := memory, address, bytes;
      head := address;
      Blocks := [Block(0, bytes - HEADER, true)];
      new;
      mem[MAGIC_F] := HEAP_MAGIC;
      mem[SIZE_F] := bytes - HEADER;
      mem[FREE_F] := 1;
      mem[NEXT_F] := 0;
      mem[PREV_F] := 0;
      assert HeaderAt(mem[..], start, Blocks, 0);
    }

    /** split_block, with `leftover` computed in 32 unsigned bits as the code does. */
    method SplitBlock(w: nat, needed: nat)
      requires w + HEADER_WORDS + needed / 4 + HEADER_WORDS <= mem.Length
      requires mem[w + NEXT_F] != 0 ==> mem[w + NEXT_F] >= start && At(start, mem[w + NEXT_F]) + HEADER_WORDS <= mem.Length
      modifies mem
      ensures mem[..] == SplitWords(old(mem[..]), start, w, needed)
    {
      ghost var m := mem[..];
      var leftover := (mem[w + SIZE_F] - needed - HEADER) % U32;
      if leftover <= HEADER + 8 {
        return;
      }
      var nb := w + HEADER_WORDS + needed / 4;
      mem[nb + MAGIC_F] := HEAP_MAGIC;
      mem[nb + SIZE_F] := leftover;
      mem[nb + FREE_F] := 1;
      mem[nb + NEXT_F] := mem[w + NEXT_F];
      mem[nb + PREV_F] := Addr(start, w);
      assert mem[w + NEXT_F] == m[w + NEXT_F];
      if mem[w + NEXT_F] != 0 {
        mem[At(start, mem[w + NEXT_F]) + PREV_F] := Addr(start, nb);
      }
      mem[w + NEXT_F] := Addr(start, nb);
      mem[w + SIZE_F] := needed;
    }

    /** The end of kmalloc: the block at w, which fits, is split and marked. */
    method Take(w: nat, need: nat, ghost i: nat)
      requires Valid() && i < |Blocks| && w == Blocks[i].at && Fits(Blocks[i], need) && need % 8 == 0
      modifies this`Blocks, mem
      ensures (exists bs :: IsHeap(mem[..], start, bs, size)) <==> old(Blocks)[i].size - need >= HEADER
      ensures old(Blocks)[i].size - need >= HEADER ==>
                && Valid() && Blocks == Alloc(old(Blocks), i, need)
                && KeepsPayloads(old(mem[..]), mem[..], old(Blocks), Blocks)
    {
      hide WellFormed, AllocWords, Alloc, KeepsPayloads;
      WordsInRange(mem[..], start, Blocks, size, i, need);
      SplitBlock(w, need);
      mem[w + FREE_F] := 0;
      mem[w + MAGIC_F] := HEAP_MAGIC;
      assert mem[..] == AllocWords(old(mem[..]), start, w, need) by { AllocIs(old(mem[..]), mem[..], start, w, need); }
      if Blocks[i].size - need >= HEADER {
        AllocRepresents(old(mem[..]), start, Blocks, size, i, need);
        Blocks := Alloc(Blocks, i, need);
        assert IsHeap(mem[..], start, Blocks, size);
      } else {
        forall bs ensures !IsHeap(mem[..], start, bs, size) {
          NearExactCorrupts(old(mem[..]), start, Blocks, size, i, need, bs);
        }
      }
    }

    /** kmalloc: 0 exactly when the request is 0 or no free block is big enough; otherwise the
        first block that fits. The heap stays a heap exactly when that fit leaves room for a header. */
    method KMalloc(n: nat) returns (p: nat)
      requires Valid() && n < U32
      modifies this`Blocks, mem
      ensures var i := FirstFit(old(Blocks), Align8(n), 0);
              if n == 0 || i == |old(Blocks)|
              then p == 0 && Valid() && Blocks == old(Blocks) && mem[..] == old(mem[..])
              else
                && p == Addr(start, old(Blocks)[i].at) + HEADER
                && ((exists bs :: IsHeap(mem[..], start, bs, size)) <==> old(Blocks)[i].size - Align8(n) >= HEADER)
                && (old(Blocks)[i].size - Align8(n) >= HEADER ==>
                      && Valid() && Blocks == Alloc(old(Blocks), i, Align8(n))
                      && KeepsPayloads(old(mem[..]), mem[..], old(Blocks), Blocks))
    {
      hide WellFormed, AllocWords, Alloc, KeepsPayloads;
      if n == 0 {
        return 0;
      }
      var need := Align8(n);
      var b := head;
      ghost var i := 0;
      LinkAt(mem[..], start, Blocks, size, 0);
      while b != 0
        invariant i <= |Blocks| && mem[..] == old(mem[..]) && Blocks == old(Blocks) && Valid()
        invariant b == if i < |Blocks| then Addr(start, Blocks[i].at) else 0
        invariant FirstFit(Blocks, need, 0) == FirstFit(Blocks, need, i)
        decreases |Blocks| - i
      {
        var w := At(start, b);
        LinkAt(mem[..], start, Blocks, size, i);
        if mem[w + FREE_F] != 0 && mem[w + SIZE_F] >= need {
          Take(w, need, i);
          return b + HEADER;
        }
        b := mem[w + NEXT_F];
        i := i + 1;
      }
      return 0;
    }

    /** Two neighbours in the list become one, as both branches of merge_free do it. */
    method Absorb(w: nat, ghost i: nat)
      requires IsTiling(mem[..], start, Blocks, size) && i + 1 < |Blocks| && w == Blocks[i].at
      requires Blocks[i].free && Blocks[i + 1].free
      modifies this`Blocks, mem
      ensures IsTiling(mem[..], start, Blocks, size) && Blocks == Heap.Absorb(old(Blocks), i)
      ensures KeepsPayloads(old(mem[..]), mem[..], old(Blocks), Blocks) && Ignores(mem[..], old(Blocks)[i + 1].at)
    {
      hide Tiles, Represents, Heap.Absorb, KeepsPayloads, HeaderAt, Ignores;
      AbsorbRepresents(mem[..], start, Blocks, size, i);
      AbsorbedIsFree(mem[..], start, Blocks, size, i);
      ghost var m := mem[..];
      var nx := At(start, mem[w + NEXT_F]);
      mem[w + SIZE_F] := mem[w + SIZE_F] + HEADER + mem[nx + SIZE_F];
      AbsorbPlaces(m, start, Blocks, size, i);
      mem[w + NEXT_F] := mem[nx + NEXT_F];
      if mem[w + NEXT_F] != 0 {
        mem[At(start, mem[w + NEXT_F]) + PREV_F] := Addr(start, w);
      }
      assert mem[..] == AbsorbWords(m, start, w);
      Blocks := Heap.Absorb(Blocks, i);
    }

    /** The neighbour words that merge_free looks at. */
    ghost predicate Neighbours(w: nat, i: nat)
      reads this, mem
    {
      && i < |Blocks| && w == Blocks[i].at && w + HEADER_WORDS <= mem.Length
      && (mem[w + NEXT_F] != 0 <==> i + 1 < |Blocks|) && (mem[w + PREV_F] != 0 <==> i > 0)
      && (i + 1 < |Blocks| ==>
            && mem[w + NEXT_F] >= start && At(start, mem[w + NEXT_F]) + HEADER_WORDS <= mem.Length
            && (mem[At(start, mem[w + NEXT_F]) + FREE_F] != 0 <==> Blocks[i + 1].free))
      && (i > 0 ==>
            && mem[w + PREV_F] >= start && At(start, mem[w + PREV_F]) == Blocks[i - 1].at
            && Blocks[i - 1].at + HEADER_WORDS <= mem.Length
            && (mem[Blocks[i - 1].at + FREE_F] != 0 <==> Blocks[i - 1].free))
    }

    lemma SeesNeighbours(w: nat, i: nat)
      requires IsTiling(mem[..], start, Blocks, size) && i < |Blocks| && w == Blocks[i].at
      ensures Neighbours(w, i)
    {
      LinksInRange(mem[..], start, Blocks, size, i);
      FreeWord(mem[..], start, Blocks, i);
      if i > 0 { FreeWord(mem[..], start, Blocks, i - 1); }
    }

    /** The loop of merge_free over the blocks behind. */
    method MergeForward(w: nat, ghost i: nat)
      requires IsTiling(mem[..], start, Blocks, size) && i < |Blocks| && w == Blocks[i].at && Blocks[i].free
      modifies this`Blocks, mem
      ensures IsTiling(mem[..], start, Blocks, size) && i < |Blocks| && w == Blocks[i].at && Blocks[i].free
      ensures Blocks == MergeNext(old(Blocks), i)
      ensures KeepsPayloads(old(mem[..]), mem[..], old(Blocks), Blocks) && LiveIn(old(Blocks), Blocks)
    {
      hide IsTiling, Heap.Absorb, KeepsPayloads, LiveIn;
      ghost var m, bs := mem[..], Blocks;
      KeepsRefl(m, Blocks);
      SeesNeighbours(w, i);
      while mem[w + NEXT_F] != 0 && mem[At(start, mem[w + NEXT_F]) + FREE_F] != 0
        invariant IsTiling(mem[..], start, Blocks, size) && Neighbours(w, i) && Blocks[i].free
        invariant MergeNext(Blocks, i) == MergeNext(bs, i)
        invariant KeepsPayloads(m, mem[..], bs, Blocks) && LiveIn(bs, Blocks)
        decreases |Blocks|
      {
        ghost var m1, bs1 := mem[..], Blocks;
        Absorb(w, i);
        LiveAbsorb(bs1, i);
        KeepsTrans(m, m1, mem[..], bs, bs1, Blocks);
        SeesNeighbours(w, i);
      }
    }

    /** merge_free. */
    method MergeFree(w: nat, ghost i: nat)
      requires IsTiling(mem[..], start, Blocks, size) && i < |Blocks| && w == Blocks[i].at && Blocks[i].free
      modifies this`Blocks, mem
      ensures IsTiling(mem[..], start, Blocks, size)
      ensures Blocks == MergePrev(MergeNext(old(Blocks), i), i)
      ensures KeepsPayloads(old(mem[..]), mem[..], old(Blocks), Blocks) && Ignores(mem[..], w)
    {
      hide IsTiling, MergeNext, Heap.Absorb, KeepsPayloads, LiveIn, Ignores;
      ghost var m, bs := mem[..], Blocks;
      MergeForward(w, i);
      SeesNeighbours(w, i);
      FreeIsIgnored(mem[..], start, Blocks, size, i);
      if mem[w + PREV_F] != 0 && mem[At(start, mem[w + PREV_F]) + FREE_F] != 0 {
        ghost var m1, bs1 := mem[..], Blocks;
        Absorb(At(start, mem[w + PREV_F]), i - 1);
        LiveAbsorb(bs1, i - 1);
        KeepsTrans(m, m1, mem[..], bs, bs1, Blocks);
      }
    }

    /** kfree of 0, of the payload address of block i, or of any pointer whose header words make kfree
        ignore it. A block is ignored when it is free already, and from now on the pointer just freed is
        ignored, even where its block was merged away. */
    method KFree(p: nat, ghost i: nat)
      requires Valid()
      requires p != 0 ==> p >= start + HEADER && (p - start) % 4 == 0
      requires p != 0 ==> Ignores(mem[..], At(start, p - HEADER)) || IsPayload(Blocks, start, p, i)
      modifies this`Blocks, mem
      ensures Valid()
      ensures if p == 0 || Ignores(old(mem[..]), At(start, p - HEADER))
              then Blocks == old(Blocks) && mem[..] == old(mem[..])
              else Blocks == Release(old(Blocks), i)
                   && KeepsPayloads(old(mem[..]), mem[..], old(Blocks), Blocks)
      ensures p != 0 && IsPayload(old(Blocks), start, p, i) ==>
                (Ignores(old(mem[..]), At(start, p - HEADER)) <==> old(Blocks)[i].free)
      ensures p != 0 ==> Ignores(mem[..], At(start, p - HEADER))
    {
      hide Tiles, MergeNext, MergePrev;
      if p == 0 {
        return;
      }
      var w := At(start, p - HEADER);
      if IsPayload(Blocks, start, p, i) { LinkAt(mem[..], start, Blocks, size, i); }
      if mem[w + MAGIC_F] != HEAP_MAGIC || mem[w + FREE_F] != 0 {
        return;
      }
      ghost var m, bs := mem[..], Blocks;
      mem[w + FREE_F] := 1;
      Blocks := Blocks[i := Blocks[i].(free := true)];
      FlipRepresents(m, start, bs, size, i);
      assert mem[..] == m[w + FREE_F := 1];
      ghost var m1, bs1 := mem[..], Blocks;
      MergeFree(w, i);
      ReleaseKeeps(bs, i, size);
      ReleaseRemovesOne(bs, i, size);
      FlipKeeps(m, m1, mem[..], bs, bs1, Blocks, size, i);
    }

    /** Freeing a live block twice in a row is freeing it once. */
    method FreeTwice(p: nat, ghost i: nat) returns (ghost once: seq<nat>)
      requires Valid() && p >= start + HEADER && IsPayload(Blocks, start, p, i) && !Blocks[i].free
      modifies this`Blocks, mem
      ensures Valid() && Blocks == Release(old(Blocks), i) && mem[..] == once
      ensures KeepsPayloads(old(mem[..]), once, old(Blocks), Blocks)
    {
      hide Release, IsHeap, KeepsPayloads, Ignores;
      KFree(p, i);
      once := mem[..];
      KFree(p, i);
    }

    /** The owner of live block i writes a word of its payload. */
    method Store(i: nat, x: nat, v: nat)
      requires Valid() && i < |Blocks| && !Blocks[i].free && InPayload(Blocks[i], x) && v < U32
      modifies mem
      ensures Valid() && x < mem.Length && mem[..] == old(mem[..])[x := v]
    {
      StoreRepresents(mem[..], start, Blocks, size, i, x, v);
      mem[x] := v;
    }

    /** The i-th header, as a walk from heap_head reaches it. */
    method Nth(i: nat) returns (b: nat)
      requires Valid() && i < |Blocks|
      ensures b == Addr(start, Blocks[i].at)
    {
      hide WellFormed;
      b := head;
      LinkAt(mem[..], start, Blocks, size, 0);
      for k := 0 to i
        invariant b == Addr(start, Blocks[k].at)
      {
        LinkAt(mem[..], start, Blocks, size, k);
        b := mem[At(start, b) + NEXT_F];
      }
    }

    method ServeOne(c: Call)
      requires Valid() && Legal(Blocks, c)
      modifies this`Blocks, mem
      ensures (exists bs :: IsHeap(mem[..], start, bs, size)) <==> !NearExact(old(Blocks), c)
      ensures !NearExact(old(Blocks), c) ==> Valid() && Blocks == AfterCall(old(Blocks), c)
      ensures !NearExact(old(Blocks), c) ==>
                forall b, x: nat | b in old(Blocks) && b in Blocks && !b.free && InPayload(b, x) && x < mem.Length ::
                  mem[x] == if c.Stores? && c.x == x then c.v else old(mem[x])
    {
      hide Alloc, Heap.Release, IsHeap;
      match c {
        case Request(Malloc(n)) => var p := KMalloc(n);
        case Request(Free(i)) => var b := Nth(i); KFree(b + HEADER, i);
        case Stores(i, x, v) => Store(i, x, v);
      }
    }

    /** Any sequence of kmalloc, kfree of live blocks and stores by the owners, up to the first request that
        meets a nearly exact first fit: memory stays a heap exactly when there is none, and then every
        allocation that lives through it holds what was last stored in it, or what it held at the start. */
    method Serve(calls: seq<Call>)
      requires Valid() && GuardedUntilLast(Blocks, calls)
      modifies this`Blocks, mem
      ensures (exists bs :: IsHeap(mem[..], start, bs, size)) <==> Guarded(old(Blocks), calls)
      ensures Guarded(old(Blocks), calls) ==>
                && Valid() && Blocks == After(old(Blocks), calls)
                && (Live(Blocks) == {} ==> Blocks == [Block(0, size - HEADER, true)])
      ensures Guarded(old(Blocks), calls) ==>
                forall b, x: nat | LivesThrough(old(Blocks), calls, b) && InPayload(b, x) ::
                  x < mem.Length && mem[x] == LastStored(calls, x, old(mem[..])[x])
      decreases |calls|
    {
      hide NearExact, Legal, AfterCall, InPayload, WellFormed, Represents, Live;
      PayloadsInside(mem[..], start, Blocks, size);
      if |calls| == 1 { LastCall(Blocks, calls); }
      if calls == [] {
        EmptyAgain(mem[..], start, Blocks, size);
        return;
      }
      ServeOne(calls[0]);
      if |calls| > 1 {
        Serve(calls[1..]);
      } else if Valid() {
        EmptyAgain(mem[..], start, Blocks, size);
      }
    }
  }

  // ---------------------------------------------------------------- facts for the allocator

  lemma EmptyAgain(m: seq<nat>, start: nat, bs: seq<Block>, size: nat)
    requires IsHeap(m, start, bs, size)
    ensures Live(bs) == {} ==> bs == [Block(0, size - HEADER, true)]
  {
    hide Live;
    if Live(bs) == {} { NothingLive(bs, size); }
  }

  lemma LastCall(bs: seq<Block>, calls: seq<Call>)
    requires |calls| == 1
    ensures Guarded(bs, calls) <==> Permitted(bs, calls[0])
    ensures After(bs, calls) == AfterCall(bs, calls[0])
    ensures forall b | LivesThrough(bs, calls, b) :: b in bs && b in AfterCall(bs, calls[0]) && !b.free
    ensures forall x: nat, v: nat ::
              LastStored(calls, x, v) == if calls[0].Stores? && calls[0].x == x then calls[0].v else v
  {
    assert calls[1..] == [];
    forall b | LivesThrough(bs, calls, b) ensures b in AfterCall(bs, calls[0]) {
      assert LivesThrough(AfterCall(bs, calls[0]), calls[1..], b);
    }
    assert forall x: nat, v: nat :: LastStored(calls[1..], x, v) == v;
  }

  lemma PayloadsInside(m: seq<nat>, start: nat, bs: seq<Block>, size: nat)
    requires IsHeap(m, start, bs, size)
    ensures forall b, x: nat | b in bs && InPayload(b, x) :: x < |m|
  {
    forall b, x: nat | b in bs && InPayload(b, x) ensures x < |m| {
      var k :| 0 <= k < |bs| && bs[k] == b;
      InRegion(bs, size, k);
    }
  }

  /** A store into a live payload touches no header. */
  lemma StoreRepresents(m: seq<nat>, start: nat, bs: seq<Block>, size: nat, i: nat, x: nat, v: nat)
    requires IsHeap(m, start, bs, size) && i < |bs| && InPayload(bs[i], x)
    ensures x < |m| && IsHeap(m[x := v], start, bs, size)
  {
    PayloadsInside(m, start, bs, size);
    var r := m[x := v];
    forall j: nat | j < |bs| ensures HeaderAt(r, start, bs, j) {
      if j < i { Ordered(bs, size, j, i); } else if i < j { Ordered(bs, size, i, j); }
      assert HeaderAt(m, start, bs, j);
    }
  }

  lemma LinkAt(m: seq<nat>, start: nat, bs: seq<Block>, size: nat, i: nat)
    requires IsHeap(m, start, bs, size) && i <= |bs|
    ensures bs != [] && bs[0].at == 0
    ensures i < |bs| ==> var w := bs[i].at;
            && w + HEADER_WORDS <= |m| && m[w + SIZE_F] == bs[i].size < U32 && m[w + MAGIC_F] == HEAP_MAGIC
            && (m[w + FREE_F] != 0 <==> bs[i].free) && m[w + NEXT_F] == NextPtr(bs, start, i)
  {
    if i < |bs| {
      InRegion(bs, size, i);
      assert HeaderAt(m, start, bs, i);
    }
  }

  lemma AllocIs(m: seq<nat>, r: seq<nat>, start: nat, w: nat, need: nat)
    requires w + HEADER_WORDS + need / 4 + HEADER_WORDS <= |m|
    requires m[w + NEXT_F] != 0 ==> m[w + NEXT_F] >= start && At(start, m[w + NEXT_F]) + HEADER_WORDS <= |m|
    requires r == SplitWords(m, start, w, need)[w + FREE_F := 0][w + MAGIC_F := HEAP_MAGIC]
    ensures r == AllocWords(m, start, w, need)
  {
  }

  /** kfree ignores a pointer behind this header. */
  predicate Ignores(m: seq<nat>, w: nat) {
    w + HEADER_WORDS <= |m| && (m[w + MAGIC_F] != HEAP_MAGIC || m[w + FREE_F] != 0)
  }

  /** p is the payload address of block i. */
  predicate IsPayload(bs: seq<Block>, start: nat, p: nat, i: nat) { i < |bs| && p == Addr(start, bs[i].at) + HEADER }

  lemma FreeIsIgnored(m: seq<nat>, start: nat, bs: seq<Block>, size: nat, i: nat)
    requires IsTiling(m, start, bs, size) && i < |bs| && bs[i].free
    ensures Ignores(m, bs[i].at)
  {
    assert HeaderAt(m, start, bs, i);
  }

  /** The words of an absorbed header that kfree looks at stay as they were. */
  lemma AbsorbedIsFree(m: seq<nat>, start: nat, bs: seq<Block>, size: nat, i: nat)
    requires IsTiling(m, start, bs, size) && i + 1 < |bs| && bs[i].free && bs[i + 1].free
    ensures var w := bs[i].at;
            && w + HEADER_WORDS <= |m| && m[w + NEXT_F] >= start && At(start, m[w + NEXT_F]) + HEADER_WORDS <= |m|
            && var nx := At(start, m[w + NEXT_F]);
            m[nx + NEXT_F] != 0 ==> m[nx + NEXT_F] >= start && At(start, m[nx + NEXT_F]) + HEADER_WORDS <= |m|
    ensures Ignores(AbsorbWords(m, start, bs[i].at), bs[i + 1].at)
  {
    hide Tiles, AbsorbWords, At;
    AbsorbRepresents(m, start, bs, size, i);
    assert HeaderAt(m, start, bs, i + 1);
    AbsorbWordAt(m, start, bs, size, i, bs[i + 1].at + MAGIC_F);
    AbsorbWordAt(m, start, bs, size, i, bs[i + 1].at + FREE_F);
    AbsorbGap(bs, size, i);
  }

  lemma AbsorbGap(bs: seq<Block>, size: nat, i: nat)
    requires Tiles(bs, size) && i + 1 < |bs|
    ensures bs[i].at + HEADER_WORDS <= bs[i + 1].at
    ensures i + 2 < |bs| ==> bs[i + 1].at + HEADER_WORDS <= bs[i + 2].at
  {
    Ordered(bs, size, i, i + 1);
    if i + 2 < |bs| { Ordered(bs, size, i + 1, i + 2); }
  }

  lemma AbsorbPlaces(m: seq<nat>, start: nat, bs: seq<Block>, size: nat, i: nat)
    requires IsTiling(m, start, bs, size) && i + 1 < |bs|
    ensures bs[i].at + HEADER_WORDS <= bs[i + 1].at && bs[i + 1].at + HEADER_WORDS <= |m|
    ensures m[bs[i].at + NEXT_F] >= start && At(start, m[bs[i].at + NEXT_F]) == bs[i + 1].at
  {
    Ordered(bs, size, i, i + 1);
    LinksInRange(m, start, bs, size, i);
  }

  lemma FreeWord(m: seq<nat>, start: nat, bs: seq<Block>, i: nat)
    requires Represents(m, start, bs) && i < |bs|
    ensures bs[i].at + HEADER_WORDS <= |m| && (m[bs[i].at + FREE_F] != 0 <==> bs[i].free)
    ensures i + 1 < |bs| ==> bs[i + 1].at + HEADER_WORDS <= |m| && (m[bs[i + 1].at + FREE_F] != 0 <==> bs[i + 1].free)
  {
    assert HeaderAt(m, start, bs, i);
    if i + 1 < |bs| { assert HeaderAt(m, start, bs, i + 1); }
  }

  /** Every live block of bs is still in bs'. */
  ghost predicate LiveIn(bs: seq<Block>, bs': seq<Block>) {
    forall b | b in bs && !b.free :: b in bs'
  }

  lemma KeepsRefl(m: seq<nat>, bs: seq<Block>)
    ensures KeepsPayloads(m, m, bs, bs) && LiveIn(bs, bs)
  {
  }

  lemma KeepsTrans(m: seq<nat>, m1: seq<nat>, m2: seq<nat>, bs: seq<Block>, bs1: seq<Block>, bs2: seq<Block>)
    requires KeepsPayloads(m, m1, bs, bs1) && KeepsPayloads(m1, m2, bs1, bs2) && LiveIn(bs, bs1) && LiveIn(bs1, bs2)
    ensures KeepsPayloads(m, m2, bs, bs2) && LiveIn(bs, bs2)
  {
  }

  lemma LiveAbsorb(bs: seq<Block>, i: nat)
    requires i + 1 < |bs| && bs[i].free && bs[i + 1].free
    ensures LiveIn(bs, Heap.Absorb(bs, i))
  {
    var r := Heap.Absorb(bs, i);
    hide Heap.Absorb;
    forall b | b in bs && !b.free ensures b in r {
      var k :| 0 <= k < |bs| && bs[k] == b;
      if k < i { assert r[k] == b; } else { assert r[k - 1] == b; }
    }
  }

  /** Setting the free flag of one block. */
  lemma FlipRepresents(m: seq<nat>, start: nat, bs: seq<Block>, size: nat, i: nat)
    requires IsHeap(m, start, bs, size) && i < |bs| && bs[i].at + HEADER_WORDS <= |m|
    ensures IsTiling(m[bs[i].at + FREE_F := 1], start, bs[i := bs[i].(free := true)], size)
  {
    var (r, c) := (m[bs[i].at + FREE_F := 1], bs[i := bs[i].(free := true)]);
    assert Tiles(c, size);
    forall j: nat | j < |bs| ensures HeaderAt(r, start, c, j) {
      assert HeaderAt(m, start, bs, j);
      FlipHeader(m, r, start, bs, size, i, j);
    }
  }

  lemma FlipHeader(m: seq<nat>, r: seq<nat>, start: nat, bs: seq<Block>, size: nat, i: nat, j: nat)
    requires Tiles(bs, size) && i < |bs| && j < |bs| && HeaderAt(m, start, bs, j)
    requires bs[i].at + HEADER_WORDS <= |m| && r == m[bs[i].at + FREE_F := 1]
    ensures HeaderAt(r, start, bs[i := bs[i].(free := true)], j)
  {
    if j < i { Ordered(bs, size, j, i); } else if j > i { Ordered(bs, size, i, j); }
    hide Tiles;
    var c := bs[i := bs[i].(free := true)];
    assert NextPtr(c, start, j) == NextPtr(bs, start, j) && PrevPtr(c, start, j) == PrevPtr(bs, start, j);
  }

  lemma FlipKeeps(m: seq<nat>, m1: seq<nat>, m2: seq<nat>, bs: seq<Block>, bs1: seq<Block>, bs2: seq<Block>, size: nat, i: nat)
    requires Tiles(bs, size) && i < |bs| && !bs[i].free && bs[i].at + HEADER_WORDS <= |m|
    requires bs1 == bs[i := bs[i].(free := true)] && m1 == m[bs[i].at + FREE_F := 1]
    requires KeepsPayloads(m1, m2, bs1, bs2) && (4 * bs[i].at + HEADER, bs[i].size) !in Live(bs2)
    ensures KeepsPayloads(m, m2, bs, bs2)
  {
    assert bs[i] !in bs2;
    forall b, x: nat | b in bs && b in bs2 && !b.free && b.at + HEADER_WORDS <= x < |m| && 4 * (x + 1) <= End(b)
      ensures m2[x] == m[x]
    {
      var k :| 0 <= k < |bs| && bs[k] == b;
      if k < i { Ordered(bs, size, k, i); } else if k > i { Ordered(bs, size, i, k); }
      assert k != i ==> bs1[k] == b;
    }
  }
}

/** The invariant of a mounted StackFS volume, and what the block and inode allocators keep. */
module StackFsInvariant {
  import opened Bytes
  import opened StackFsLayout
  import opened StackFs

  function CountFree(bitmap: seq<byte>, n: nat): (c: nat)
    requires n <= 8 * |bitmap|
    ensures c <= n
  {
    if n == 0 then 0 else CountFree(bitmap, n - 1) + (if Taken(bitmap, n - 1) then 0 else 1)
  }

  function CountFreeInodes(t: seq<Inode>): (c: nat)
    ensures c <= |t|
  {
    if t == [] then 0 else CountFreeInodes(t[..|t| - 1]) + (if t[|t| - 1].kind == FREE then 1 else 0)
  }

  ghost predicate PtrsTaken(t: seq<Inode>, bitmap: seq<byte>, total: nat)
    requires total <= 8 * |bitmap|
  {
    forall i: nat, k: nat | Ptr(t, i, k) != 0 :: Ptr(t, i, k) < total && Taken(bitmap, Ptr(t, i, k))
  }

  ghost predicate PtrsDistinct(t: seq<Inode>) {
    forall i: nat, k: nat, j: nat, l: nat | Ptr(t, i, k) == Ptr(t, j, l) != 0 :: i == j && k == l
  }

  ghost predicate TakenOwned(t: seq<Inode>, bitmap: seq<byte>) {
    forall b: nat | 0 < b < 8 * |bitmap| && Taken(bitmap, b) :: exists i: nat, k: nat :: Ptr(t, i, k) == b
  }

  ghost predicate FreeEmpty(t: seq<Inode>) {
    forall i: nat, k: nat | i < |t| && t[i].kind == FREE :: Ptr(t, i, k) == 0
  }

  /** Block ownership: a block is taken exactly when it is block 0 or some inode points to it,
      no two pointers name the same block, and free inodes point nowhere. */
  ghost predicate OwnTable(t: seq<Inode>, bitmap: seq<byte>, total: nat)
    requires total <= 8 * |bitmap|
  {
    PtrsTaken(t, bitmap, total) && PtrsDistinct(t) && TakenOwned(t, bitmap) && FreeEmpty(t)
  }

  ghost predicate Own(s: Fs)
    requires Shape(s)
  {
    && OwnTable(s.inodes, s.bitmap, s.sb.totalBlocks)
    && s.sb.freeBlocks == CountFree(s.bitmap, s.sb.totalBlocks)
    && s.sb.freeInodes == CountFreeInodes(s.inodes)
  }

  // ---------------------------------------------------------------- counting

  lemma {:induction false} CountMark(bitmap: seq<byte>, b: nat, n: nat)
    requires b < 8 * |bitmap| && n <= 8 * |bitmap| && !Taken(bitmap, b)
    ensures CountFree(Mark(bitmap, b), n) == CountFree(bitmap, n) - (if b < n then 1 else 0)
  {
    if n > 0 { CountMark(bitmap, b, n - 1); }
  }

  lemma {:induction false} CountUnmark(bitmap: seq<byte>, b: nat, n: nat)
    requires b < 8 * |bitmap| && n <= 8 * |bitmap| && Taken(bitmap, b)
    ensures CountFree(Unmark(bitmap, b), n) == CountFree(bitmap, n) + (if b < n then 1 else 0)
  {
    if n > 0 { CountUnmark(bitmap, b, n - 1); }
  }

  lemma {:induction false} CountNone(bitmap: seq<byte>, n: nat)
    requires n <= 8 * |bitmap|
    ensures CountFree(bitmap, n) == 0 <==> forall b | 0 <= b < n :: Taken(bitmap, b)
  {
    if n > 0 { CountNone(bitmap, n - 1); }
  }

  lemma {:induction false} CountInodeUpdate(t: seq<Inode>, i: nat, node: Inode)
    requires i < |t|
    ensures CountFreeInodes(t[i := node]) + (if t[i].kind == FREE then 1 else 0)
         == CountFreeInodes(t) + (if node.kind == FREE then 1 else 0)
  {
    var n := |t| - 1;
    if i < n {
      assert t[i := node][..n] == t[..n][i := node];
      CountInodeUpdate(t[..n], i, node);
    } else {
      assert t[i := node][..n] == t[..n];
    }
  }

  // ---------------------------------------------------------------- primitive steps

  /** Allocating a block and hanging it into an empty pointer of a live inode keeps ownership and
      costs one free block. Block 0 must be taken already: handed out, it would be written into the
      pointer as "no block". */
  lemma GrantBlock(s: Fs, i: nat, k: nat)
    requires Shape(s) && Own(s) && Taken(s.bitmap, 0)
    requires i < MAX_INODES && k < DIRECT && s.inodes[i].kind != FREE && Ptr(s.inodes, i, k) == 0
    requires BitmapAlloc(s).1 >= 0
    ensures var (s1, b) := BitmapAlloc(s);
            var r := s1.(inodes := SetPtr(s1.inodes, i, k, b));
            && b > 0 && b < s.sb.totalBlocks && Shape(r) && Own(r) && Taken(r.bitmap, 0)
            && r.sb.freeBlocks == s.sb.freeBlocks - 1
            && forall j: nat, l: nat :: Ptr(s.inodes, j, l) != b
  {
    hide OwnTable, CountFree, CountFreeInodes, FirstFree;
    var (s1, b) := BitmapAlloc(s);
    var r := s1.(inodes := SetPtr(s1.inodes, i, k, b));
    CountMark(s.bitmap, b, s.sb.totalBlocks);
    CountInodeUpdate(s.inodes, i, r.inodes[i]);
    GrantedTable(s.inodes, i, k, b, s.bitmap, s.sb.totalBlocks);
    assert r.bitmap == Mark(s.bitmap, b) && r.sb.totalBlocks == s.sb.totalBlocks;
    assert r.sb.freeBlocks == CountFree(r.bitmap, r.sb.totalBlocks);
    assert r.sb.freeInodes == CountFreeInodes(r.inodes);
  }

  lemma GrantedTable(t: seq<Inode>, i: nat, k: nat, b: nat, bitmap: seq<byte>, total: nat)
    requires total <= 8 * |bitmap| && i < |t| && k < |t[i].blocks| && 0 < b < total && !Taken(bitmap, b)
    requires OwnTable(t, bitmap, total) && t[i].kind != FREE && Ptr(t, i, k) == 0
    ensures OwnTable(SetPtr(t, i, k, b), Mark(bitmap, b), total)
    ensures forall j: nat, l: nat :: Ptr(t, j, l) != b
  {
    var r := SetPtr(t, i, k, b);
    assert Ptr(r, i, k) == b;
    forall c: nat | 0 < c < 8 * |bitmap| && Taken(Mark(bitmap, b), c)
      ensures exists j: nat, l: nat :: Ptr(r, j, l) == c
    {
      if c != b {
        var j: nat, l: nat :| Ptr(t, j, l) == c;
        assert Ptr(r, j, l) == c;
      }
    }
  }

  /** The allocator fails exactly when the free count is 0. */
  lemma AllocFails(s: Fs)
    requires Shape(s) && Own(s)
    ensures BitmapAlloc(s).1 < 0 <==> s.sb.freeBlocks == 0
  {
    CountNone(s.bitmap, s.sb.totalBlocks);
  }

  lemma {:induction false} FreeBlocksGives(s: Fs, ptrs: seq<nat>)
    requires Shape(s) && forall k | 0 <= k < |ptrs| :: ptrs[k] < 8 * BITMAP_BYTES
    requires s.sb.freeBlocks == CountFree(s.bitmap, s.sb.totalBlocks)
    requires forall k | 0 <= k < |ptrs| && ptrs[k] != 0 :: ptrs[k] < s.sb.totalBlocks && Taken(s.bitmap, ptrs[k])
    requires forall k, l | 0 <= k < l < |ptrs| && ptrs[k] != 0 :: ptrs[k] != ptrs[l]
    ensures var r := FreeBlocks(s, ptrs);
            && (forall b: nat | b < 8 * BITMAP_BYTES :: Taken(r.bitmap, b) <==> Taken(s.bitmap, b) && (b == 0 || b !in ptrs))
            && r.sb.freeBlocks == CountFree(r.bitmap, r.sb.totalBlocks)
            && r.sb == s.sb.(freeBlocks := r.sb.freeBlocks)
            && (r.inodes, r.meta, r.data, r.inodesDirty) == (s.inodes, s.meta, s.data, s.inodesDirty)
            && (r.bitmap != s.bitmap ==> r.bitmapDirty && r.sbDirty)
            && (s.bitmapDirty ==> r.bitmapDirty) && (s.sbDirty ==> r.sbDirty)
    decreases |ptrs|
  {
    if ptrs != [] {
      var s1 := if ptrs[0] != 0 then BitmapFree(s, ptrs[0]) else s;
      if ptrs[0] != 0 {
        CountUnmark(s.bitmap, ptrs[0], s.sb.totalBlocks);
        assert CountFree(s1.bitmap, s.sb.totalBlocks) <= MAX_BLOCKS;
      }
      assert forall k | 0 <= k < |ptrs[1..]| :: ptrs[1..][k] == ptrs[k + 1];
      FreeBlocksGives(s1, ptrs[1..]);
      assert forall b :: b in ptrs <==> b == ptrs[0] || b in ptrs[1..];
    }
  }

  /** Releasing an inode frees exactly the blocks it pointed to. */
  lemma ReleaseKeeps(s: Fs, ci: nat)
    requires Shape(s) && Own(s) && ci < MAX_INODES && s.inodes[ci].kind != FREE
    ensures Own(Release(s, ci))
    ensures var r := Release(s, ci);
            && (Taken(s.bitmap, 0) ==> Taken(r.bitmap, 0))
            && r.sb == s.sb.(freeBlocks := r.sb.freeBlocks, freeInodes := s.sb.freeInodes + 1)
            && r.inodes == s.inodes[ci := ZeroInode()] && r.data == s.data && r.meta == s.meta
            && r.sbDirty && r.inodesDirty && (r.bitmap != s.bitmap ==> r.bitmapDirty)
            && (s.bitmapDirty ==> r.bitmapDirty)
  {
    hide OwnTable, CountFree, CountFreeInodes, FreeBlocks;
    var ptrs := s.inodes[ci].blocks;
    assert forall k | 0 <= k < DIRECT :: ptrs[k] == Ptr(s.inodes, ci, k);
    PtrsOf(s.inodes, ci, s.bitmap, s.sb.totalBlocks);
    FreeBlocksGives(s, ptrs);
    CountInodeUpdate(s.inodes, ci, ZeroInode());
    var s1 := FreeBlocks(s, ptrs);
    ClearedTable(s.inodes, ci, s.bitmap, s1.bitmap, s.sb.totalBlocks);
    var r := Release(s, ci);
    assert r.inodes == ClearNode(s.inodes, ci) && r.bitmap == s1.bitmap;
    assert r.sb.totalBlocks == s.sb.totalBlocks;
    assert r.sb.freeInodes == CountFreeInodes(r.inodes);
  }

  lemma PtrsOf(t: seq<Inode>, i: nat, bitmap: seq<byte>, total: nat)
    requires total <= 8 * |bitmap| && OwnTable(t, bitmap, total) && i < |t|
    ensures var ptrs := t[i].blocks;
            && (forall k | 0 <= k < |ptrs| && ptrs[k] != 0 :: ptrs[k] < total && Taken(bitmap, ptrs[k]))
            && (forall k, l | 0 <= k < l < |ptrs| && ptrs[k] != 0 :: ptrs[k] != ptrs[l])
  {
    assert forall k | 0 <= k < |t[i].blocks| :: t[i].blocks[k] == Ptr(t, i, k);
  }

  lemma ClearedTable(t: seq<Inode>, ci: nat, before: seq<byte>, after: seq<byte>, total: nat)
    requires |before| == |after| && total <= 8 * |before| && ci < |t|
    requires OwnTable(t, before, total)
    requires forall b: nat | b < 8 * |before| :: Taken(after, b) <==> Taken(before, b) && (b == 0 || b !in t[ci].blocks)
    ensures OwnTable(ClearNode(t, ci), after, total)
  {
    var r := ClearNode(t, ci);
    assert forall l | 0 <= l < |t[ci].blocks| :: t[ci].blocks[l] == Ptr(t, ci, l);
    forall i: nat, k: nat | Ptr(r, i, k) != 0
      ensures Ptr(r, i, k) < total && Taken(after, Ptr(r, i, k))
    {
      assert Ptr(t, i, k) !in t[ci].blocks;
    }
    forall b: nat | 0 < b < 8 * |after| && Taken(after, b)
      ensures exists i: nat, k: nat :: Ptr(r, i, k) == b
    {
      var i: nat, k: nat :| Ptr(t, i, k) == b;
      assert i != ci;
      assert Ptr(r, i, k) == b;
    }
  }
}

/** StackFS files refine byte sequences, holes included. */
module StackFsFiles {
  import opened Bytes
  import opened StackFsLayout
  import opened StackFs
  import opened StackFsInvariant

  /** The byte at position p of an inode; 0 where it has no block. */
  function Cell(s: Fs, ino: nat, p: nat): byte
    requires Shape(s) && ino < MAX_INODES
  {
    var b := Ptr(s.inodes, ino, p / BLOCK);
    if b != 0 then s.data[b][p % BLOCK] else 0
  }

  /** The abstract file: as many bytes as its recorded size says. */
  ghost function File(s: Fs, ino: nat): (c: seq<byte>)
    requires Shape(s) && ino < MAX_INODES
    ensures |c| == s.inodes[ino].size && forall p | 0 <= p < |c| :: c[p] == Cell(s, ino, p)
  {
    seq(s.inodes[ino].size, p requires 0 <= p => Cell(s, ino, p))
  }

  /** Nothing is stored behind the end of the file. */
  ghost predicate CleanTail(s: Fs, ino: nat)
    requires Shape(s) && ino < MAX_INODES
  {
    forall p: nat | s.inodes[ino].size <= p :: Cell(s, ino, p) == 0
  }

  /** Exactly the blocks that hold the file's bytes are present. */
  ghost predicate HoleFree(s: Fs, ino: nat)
    requires ino < |s.inodes|
  {
    var size := s.inodes[ino].size;
    size <= MAX_FILE && forall k: nat | k < DIRECT :: Ptr(s.inodes, ino, k) != 0 <==> k * BLOCK < size
  }

  /** `chunk` written over `c` at any position; a gap between them reads as zeros. */
  function Overwrite(c: seq<byte>, at: nat, chunk: seq<byte>): (r: seq<byte>)
    ensures |r| == Max(|c|, at + |chunk|)
    ensures forall p | 0 <= p < |r| ::
              r[p] == if at <= p < at + |chunk| then chunk[p - at] else if p < |c| then c[p] else 0
  {
    (if at <= |c| then c[..at] else c + Zeros(at - |c|)) + chunk + (if at + |chunk| <= |c| then c[at + |chunk|..] else [])
  }

  /** r has inode j and the contents of its blocks as s has them. */
  ghost predicate SameFile(s: Fs, r: Fs, j: nat)
    requires Shape(s) && Shape(r) && j < MAX_INODES
  {
    && |r.data| == |s.data| && r.inodes[j] == s.inodes[j]
    && forall l: nat | Ptr(s.inodes, j, l) != 0 :: r.data[Ptr(s.inodes, j, l)] == s.data[Ptr(s.inodes, j, l)]
  }

  ghost predicate ReadsAlike(s: Fs, r: Fs, j: nat)
    requires Shape(s) && Shape(r)
  {
    forall offset: nat, n: nat :: Read(r, j, offset, n) == Read(s, j, offset, n)
  }

  /** A file whose inode and blocks are left alone keeps its bytes and answers every read alike. */
  lemma SameFileSameBytes(s: Fs, r: Fs, j: nat)
    requires Shape(s) && Shape(r) && j < MAX_INODES && SameFile(s, r, j)
    ensures forall l: nat :: Ptr(r.inodes, j, l) == Ptr(s.inodes, j, l)
    ensures forall p: nat :: Cell(r, j, p) == Cell(s, j, p)
    ensures File(r, j) == File(s, j)
    ensures HoleFree(s, j) <==> HoleFree(r, j)
    ensures CleanTail(s, j) <==> CleanTail(r, j)
    ensures ReadsAlike(s, r, j)
  {
    assert forall l: nat :: Ptr(r.inodes, j, l) == Ptr(s.inodes, j, l);
    forall p: nat ensures Cell(r, j, p) == Cell(s, j, p) {}
    forall pos: nat, n: nat ensures ReadFrom(r, j, pos, n) == ReadFrom(s, j, pos, n) { SameReads(s, r, j, pos, n); }
    hide Cell, ReadFrom;
  }

  lemma {:induction false} SameReads(s: Fs, r: Fs, j: nat, pos: nat, n: nat)
    requires Shape(s) && Shape(r) && j < MAX_INODES && SameFile(s, r, j)
    ensures ReadFrom(r, j, pos, n) == ReadFrom(s, j, pos, n)
    decreases n
  {
    assert Ptr(r.inodes, j, pos / BLOCK) == Ptr(s.inodes, j, pos / BLOCK);
    if n > 0 { SameReads(s, r, j, pos + Min(BLOCK - pos % BLOCK, n), n - Min(BLOCK - pos % BLOCK, n)); }
  }

  // ---------------------------------------------------------------- how far a loop gets

  /** Missing blocks of the inode from k up to l. */
  function Holes(t: seq<Inode>, ino: nat, k: nat, l: nat): (h: nat)
    decreases l - k
  {
    if k >= l then 0 else Holes(t, ino, k + 1, l) + if Ptr(t, ino, k) == 0 then 1 else 0
  }

  /** The first block from k on that is missing when the free blocks have filled the holes before it;
      DIRECT when there is none. With no free block it is the first hole. */
  function Stuck(t: seq<Inode>, ino: nat, k: nat, free: nat): (r: nat)
    ensures k <= r && (k <= DIRECT ==> r <= DIRECT)
    ensures Holes(t, ino, k, r) <= free
    ensures r < DIRECT ==> Ptr(t, ino, r) == 0 && Holes(t, ino, k, r) == free
    decreases DIRECT - k
  {
    if k >= DIRECT then k
    else if Ptr(t, ino, k) != 0 then Stuck(t, ino, k + 1, free)
    else if free > 0 then Stuck(t, ino, k + 1, free - 1)
    else k
  }

  /** How many of n bytes at pos the write loop stores with `free` free blocks, and, with none, how many
      the read loop finds. */
  function Reach(t: seq<Inode>, ino: nat, free: nat, pos: nat, n: nat): (m: nat)
    ensures m <= n
  {
    Max(0, Min(n, BLOCK * Stuck(t, ino, pos / BLOCK, free) - pos))
  }

  lemma {:induction false} StuckSame(t: seq<Inode>, u: seq<Inode>, ino: nat, k: nat, free: nat)
    requires forall l: nat | k <= l :: Ptr(u, ino, l) == Ptr(t, ino, l)
    ensures Stuck(u, ino, k, free) == Stuck(t, ino, k, free)
    decreases DIRECT - k
  {
    hide Ptr, Holes;
    if k < DIRECT {
      if Ptr(t, ino, k) != 0 {
        StuckSame(t, u, ino, k + 1, free);
      } else if free > 0 {
        StuckSame(t, u, ino, k + 1, free - 1);
      }
    }
  }

  /** One turn of either loop. */
  lemma ReachStep(t: seq<Inode>, ino: nat, free: nat, pos: nat, n: nat)
    requires n > 0 && pos / BLOCK < DIRECT
    ensures var hole := Ptr(t, ino, pos / BLOCK) == 0;
            var m := Min(BLOCK - pos % BLOCK, n);
            if hole && free == 0 then Reach(t, ino, free, pos, n) == 0
            else Reach(t, ino, free, pos, n) == m + Reach(t, ino, if hole then free - 1 else free, pos + m, n - m)
  {
    var k := pos / BLOCK;
    var m := Min(BLOCK - pos % BLOCK, n);
    assert m < n ==> (pos + m) / BLOCK == k + 1;
    hide Ptr, Holes;
  }

  lemma ReachEnd(t: seq<Inode>, ino: nat, free: nat, pos: nat, n: nat)
    requires n == 0 || pos / BLOCK >= DIRECT
    ensures Reach(t, ino, free, pos, n) == 0
  {}

  /** Block k holds one of n bytes from pos on. */
  predicate Touched(pos: nat, n: nat, k: nat) { n > 0 && pos / BLOCK <= k && k * BLOCK < pos + n }

  // ---------------------------------------------------------------- the write loop

  /** s' differs from s only in the blocks of one file, and in the bitmap and free count. */
  ghost predicate OnlyFile(s: Fs, s': Fs, ino: nat)
    requires Shape(s) && Shape(s') && ino < MAX_INODES
  {
    && |s'.data| == |s.data| && s'.meta == s.meta && s'.inodesDirty == s.inodesDirty
    && s'.sb == s.sb.(freeBlocks := s'.sb.freeBlocks)
    && s'.inodes == s.inodes[ino := s.inodes[ino].(blocks := s'.inodes[ino].blocks)]
    && (forall j: nat, l: nat | j != ino && Ptr(s.inodes, j, l) != 0 ::
          s'.data[Ptr(s.inodes, j, l)] == s.data[Ptr(s.inodes, j, l)])
    && (s.bitmapDirty ==> s'.bitmapDirty) && (s.sbDirty ==> s'.sbDirty)
    && (s'.bitmap != s.bitmap || s'.sb != s.sb ==> s'.bitmapDirty && s'.sbDirty)
  }

  lemma OnlyFileTrans(s: Fs, t: Fs, u: Fs, ino: nat)
    requires Shape(s) && Shape(t) && Shape(u) && ino < MAX_INODES
    requires OnlyFile(s, t, ino) && OnlyFile(t, u, ino)
    ensures OnlyFile(s, u, ino)
  {
    assert forall j: nat, l: nat | j != ino :: Ptr(t.inodes, j, l) == Ptr(s.inodes, j, l);
  }

  /** A live inode in a volume whose block 0 is taken. */
  ghost predicate Ready(s: Fs, ino: nat) {
    Shape(s) && Own(s) && Taken(s.bitmap, 0) && ino < MAX_INODES && s.inodes[ino].kind != FREE
  }

  /** r is s with the bytes of chunk stored from pos on: it has the blocks it had and those touched. */
  ghost predicate Patched(s: Fs, r: Fs, ino: nat, pos: nat, chunk: seq<byte>)
    requires Ready(s, ino)
  {
    && Ready(r, ino) && OnlyFile(s, r, ino)
    && (forall k: nat | Ptr(s.inodes, ino, k) != 0 :: Ptr(r.inodes, ino, k) == Ptr(s.inodes, ino, k))
    && (forall k: nat :: Ptr(r.inodes, ino, k) != 0 <==> Ptr(s.inodes, ino, k) != 0 || Touched(pos, |chunk|, k))
    && forall p: nat :: Cell(r, ino, p) == if pos <= p < pos + |chunk| then chunk[p - pos] else Cell(s, ino, p)
  }

  lemma PatchNothing(s: Fs, ino: nat, pos: nat)
    requires Ready(s, ino)
    ensures Patched(s, s, ino, pos, [])
  {
    assert s.inodes[ino := s.inodes[ino].(blocks := s.inodes[ino].blocks)] == s.inodes;
    hide Cell;
  }

  lemma PatchTwice(s: Fs, t: Fs, u: Fs, ino: nat, pos: nat, a: seq<byte>, b: seq<byte>)
    requires Ready(s, ino) && a != [] && Patched(s, t, ino, pos, a) && Patched(t, u, ino, pos + |a|, b)
    ensures Patched(s, u, ino, pos, a + b)
  {
    OnlyFileTrans(s, t, u, ino);
    hide Cell, Ptr, Ready, OnlyFile, Shape;
    forall k: nat ensures Touched(pos, |a + b|, k) <==> Touched(pos, |a|, k) || Touched(pos + |a|, |b|, k) {
      TouchedTwice(pos, |a|, |b|, k);
    }
    hide Touched;
  }

  lemma TouchedTwice(pos: nat, m: nat, n: nat, k: nat)
    requires m > 0
    ensures Touched(pos, m + n, k) <==> Touched(pos, m, k) || Touched(pos + m, n, k)
  {}

  lemma OneBlockTouched(pos: nat, n: nat, k: nat)
    requires 0 < n <= BLOCK - pos % BLOCK
    ensures Touched(pos, n, k) <==> k == pos / BLOCK
  {}

  lemma PatchPresent(s: Fs, ino: nat, pos: nat, chunk: seq<byte>)
    requires Ready(s, ino) && pos / BLOCK < DIRECT && chunk != [] && pos % BLOCK + |chunk| <= BLOCK
    requires Ptr(s.inodes, ino, pos / BLOCK) != 0
    ensures var (r, ok) := PutChunk(s, ino, pos, chunk);
            ok && Patched(s, r, ino, pos, chunk) && r.inodes == s.inodes && r.sb == s.sb
  {
    var r := PutChunk(s, ino, pos, chunk).0;
    forall k: nat ensures Touched(pos, |chunk|, k) <==> k == pos / BLOCK { OneBlockTouched(pos, |chunk|, k); }
    forall p: nat ensures Cell(r, ino, p) == if pos <= p < pos + |chunk| then chunk[p - pos] else Cell(s, ino, p) {
      assert Ptr(s.inodes, ino, p / BLOCK) != 0 ==>
        (p / BLOCK == pos / BLOCK <==> Ptr(s.inodes, ino, p / BLOCK) == Ptr(s.inodes, ino, pos / BLOCK));
    }
    assert s.inodes[ino := s.inodes[ino].(blocks := r.inodes[ino].blocks)] == s.inodes;
    hide Cell, Touched, Splice;
  }

  lemma PatchHole(s: Fs, ino: nat, pos: nat, chunk: seq<byte>)
    requires Ready(s, ino) && pos / BLOCK < DIRECT && chunk != [] && pos % BLOCK + |chunk| <= BLOCK
    requires Ptr(s.inodes, ino, pos / BLOCK) == 0
    ensures s.sb.freeBlocks == 0 ==> PutChunk(s, ino, pos, chunk) == (s, false)
    ensures s.sb.freeBlocks > 0 ==>
              var (r, ok) := PutChunk(s, ino, pos, chunk);
              && ok && Patched(s, r, ino, pos, chunk) && r.sb.freeBlocks == s.sb.freeBlocks - 1
              && forall k: nat | k != pos / BLOCK :: Ptr(r.inodes, ino, k) == Ptr(s.inodes, ino, k)
  {
    AllocFails(s);
    if s.sb.freeBlocks > 0 {
      GrantBlock(s, ino, pos / BLOCK);
      var r := PutChunk(s, ino, pos, chunk).0;
      forall k: nat ensures Touched(pos, |chunk|, k) <==> k == pos / BLOCK { OneBlockTouched(pos, |chunk|, k); }
      HoleCells(s, ino, pos, chunk);
      hide Cell, Touched, Splice;
    }
  }

  lemma HoleCells(s: Fs, ino: nat, pos: nat, chunk: seq<byte>)
    requires Ready(s, ino) && pos / BLOCK < DIRECT && pos % BLOCK + |chunk| <= BLOCK
    requires Ptr(s.inodes, ino, pos / BLOCK) == 0 && PutChunk(s, ino, pos, chunk).1
    ensures var r := PutChunk(s, ino, pos, chunk).0;
            forall p: nat :: Cell(r, ino, p) == if pos <= p < pos + |chunk| then chunk[p - pos] else Cell(s, ino, p)
  {
    var r := PutChunk(s, ino, pos, chunk).0;
    var b := BitmapAlloc(s).1;
    assert b != 0;
    forall p: nat ensures Cell(r, ino, p) == if pos <= p < pos + |chunk| then chunk[p - pos] else Cell(s, ino, p) {
      if p / BLOCK == pos / BLOCK {
        assert Ptr(r.inodes, ino, p / BLOCK) == b;
      } else {
        assert Ptr(r.inodes, ino, p / BLOCK) == Ptr(s.inodes, ino, p / BLOCK) != b;
      }
    }
  }

  lemma PatchOne(s: Fs, ino: nat, pos: nat, chunk: seq<byte>)
    requires Ready(s, ino) && pos / BLOCK < DIRECT && chunk != [] && pos % BLOCK + |chunk| <= BLOCK
    ensures var (r, ok) := PutChunk(s, ino, pos, chunk);
            var hole := Ptr(s.inodes, ino, pos / BLOCK) == 0;
            && (ok <==> !(hole && s.sb.freeBlocks == 0)) && (!ok ==> r == s)
            && (ok ==>
                  && Patched(s, r, ino, pos, chunk) && r.sb.freeBlocks == s.sb.freeBlocks - (if hole then 1 else 0)
                  && forall k: nat | k != pos / BLOCK :: Ptr(r.inodes, ino, k) == Ptr(s.inodes, ino, k))
  {
    if Ptr(s.inodes, ino, pos / BLOCK) != 0 {
      PatchPresent(s, ino, pos, chunk);
    } else {
      PatchHole(s, ino, pos, chunk);
    }
    hide Patched, PutChunk, Ptr;
  }

  /** The whole loop, from any position and over any holes, stores as much of buf as it can reach. */
  lemma {:induction false} WriteLoopPatches(s: Fs, ino: nat, pos: nat, buf: seq<byte>) returns (r: Fs, done: nat)
    requires Ready(s, ino)
    ensures (r, done) == WriteFrom(s, ino, pos, buf)
    ensures done == Reach(s.inodes, ino, s.sb.freeBlocks, pos, |buf|) && Patched(s, r, ino, pos, buf[..done])
    decreases |buf|
  {
    hide Patched, Reach, PutChunk, WriteFrom, ChunkAt, Own, Shape, Ptr;
    PatchNothing(s, ino, pos);
    assert buf[..0] == [];
    if buf == [] || pos / BLOCK >= DIRECT {
      WriteFromEnd(s, ino, pos, buf);
      ReachEnd(s.inodes, ino, s.sb.freeBlocks, pos, |buf|);
      return s, 0;
    }
    var n := ChunkAt(pos, buf);
    ChunkIs(pos, buf);
    WriteFromStep(s, ino, pos, buf, n);
    ReachStep(s.inodes, ino, s.sb.freeBlocks, pos, |buf|);
    PatchOne(s, ino, pos, buf[..n]);
    var (s1, ok) := PutChunk(s, ino, pos, buf[..n]);
    r, done := s, 0;
    if ok {
      PatchedReady(s, s1, ino, pos, buf[..n]);
      r, done := WriteLoopPatches(s1, ino, pos + n, buf[n..]);
      ReachRest(s.inodes, s1.inodes, ino, s1.sb.freeBlocks, pos, n, |buf| - n);
      PatchTwice(s, s1, r, ino, pos, buf[..n], buf[n..][..done]);
      assert buf[..n] + buf[n..][..done] == buf[..n + done];
      done := n + done;
    }
  }

  lemma ChunkIs(pos: nat, buf: seq<byte>)
    ensures ChunkAt(pos, buf) == Min(BLOCK - pos % BLOCK, |buf|)
  {}

  /** What is still within reach after the first n bytes, which end their block or the request. */
  lemma ReachRest(t: seq<Inode>, u: seq<Inode>, ino: nat, free: nat, pos: nat, n: nat, rest: nat)
    requires n <= BLOCK - pos % BLOCK && (rest == 0 || n == BLOCK - pos % BLOCK)
    requires forall k: nat | k != pos / BLOCK :: Ptr(u, ino, k) == Ptr(t, ino, k)
    ensures Reach(u, ino, free, pos + n, rest) == Reach(t, ino, free, pos + n, rest)
  {
    if rest == 0 {
      ReachEnd(u, ino, free, pos + n, 0);
      ReachEnd(t, ino, free, pos + n, 0);
    } else {
      assert (pos + n) / BLOCK == pos / BLOCK + 1;
      StuckSame(t, u, ino, (pos + n) / BLOCK, free);
    }
  }

  lemma PatchedReady(s: Fs, r: Fs, ino: nat, pos: nat, chunk: seq<byte>)
    requires Ready(s, ino) && Patched(s, r, ino, pos, chunk)
    ensures Ready(r, ino)
  {}

  // ---------------------------------------------------------------- sync and size

  /** Writing the metadata back changes nothing that file contents depend on. */
  lemma SyncKeeps(s: Fs)
    requires Shape(s)
    ensures var r := Sync(s);
            && (r.sb, r.inodes, r.bitmap, r.data) == (s.sb, s.inodes, s.bitmap, s.data)
            && !r.sbDirty && !r.inodesDirty && !r.bitmapDirty
  {
  }

  lemma SyncOwn(s: Fs)
    requires Shape(s) && Own(s)
    ensures Own(Sync(s))
  {
  }

  lemma ExtendKeeps(s: Fs, ino: nat, end: nat)
    requires Shape(s) && Own(s) && ino < MAX_INODES && s.inodes[ino].kind != FREE && end < U32
    ensures Own(Extend(s, ino, end))
  {
    var node := s.inodes[ino].(size := end);
    CountInodeUpdate(s.inodes, ino, node);
    ResizedOwn(s.inodes, ino, node, s.bitmap, s.sb.totalBlocks);
    hide OwnTable, CountFree, CountFreeInodes;
  }

  lemma ResizedOwn(t: seq<Inode>, i: nat, node: Inode, bitmap: seq<byte>, total: nat)
    requires i < |t| && total <= 8 * |bitmap| && OwnTable(t, bitmap, total)
    requires t[i].kind != FREE && node.kind != FREE && node.blocks == t[i].blocks
    ensures OwnTable(PutNode(t, i, node), bitmap, total)
  {
    var r := PutNode(t, i, node);
    forall b: nat | 0 < b < 8 * |bitmap| && Taken(bitmap, b) ensures exists j: nat, k: nat :: Ptr(r, j, k) == b {
      var j: nat, k: nat :| Ptr(t, j, k) == b;
      assert Ptr(r, j, k) == b;
    }
  }

  lemma WriteIs(s: Fs, ino: nat, offset: nat, buf: seq<byte>)
    requires Shape(s) && 0 < ino < MAX_INODES && s.inodes[ino].kind == FILE && offset < U32
    ensures var (s1, done) := WriteFrom(s, ino, offset, buf);
            Write(s, ino, offset, buf) == (Sync(Extend(s1, ino, offset + done)), done as int)
  {
    hide WriteFrom, Extend, Sync;
  }

  // ---------------------------------------------------------------- bfs_write

  /** Everything but one file is untouched: the inodes, and the blocks they point to. */
  ghost predicate OtherFilesKept(s: Fs, r: Fs, ino: nat)
    requires Shape(s) && Shape(r) && ino < MAX_INODES
  {
    && |r.data| == |s.data| && r.sb == s.sb.(freeBlocks := r.sb.freeBlocks)
    && (forall j: nat | j < MAX_INODES && j != ino :: r.inodes[j] == s.inodes[j])
    && r.inodes[ino] == s.inodes[ino].(size := r.inodes[ino].size, blocks := r.inodes[ino].blocks)
    && (forall j: nat, l: nat | j != ino && Ptr(s.inodes, j, l) != 0 ::
          r.data[Ptr(s.inodes, j, l)] == s.data[Ptr(s.inodes, j, l)])
  }

  lemma OtherFileSame(s: Fs, r: Fs, ino: nat, j: nat)
    requires Shape(s) && Shape(r) && ino < MAX_INODES && OtherFilesKept(s, r, ino) && j < MAX_INODES && j != ino
    ensures SameFile(s, r, j)
  {}

  /** The blocks of the file after chunk was stored at offset: those it had, and those touched. */
  ghost predicate BlocksAdded(s: Fs, r: Fs, ino: nat, offset: nat, n: nat) {
    && (forall k: nat | Ptr(s.inodes, ino, k) != 0 :: Ptr(r.inodes, ino, k) == Ptr(s.inodes, ino, k))
    && forall k: nat :: Ptr(r.inodes, ino, k) != 0 <==> Ptr(s.inodes, ino, k) != 0 || Touched(offset, n, k)
  }

  /** bfs_write, at any offset and over any holes: the file's bytes are overwritten from the offset on
      with as many bytes of buf as the loop reaches, a gap behind the old end reads as zeros, the file gains
      just the blocks touched, every other file is as it was, and block ownership holds. */
  lemma WriteOverwrites(s: Fs, ino: nat, offset: nat, buf: seq<byte>)
    requires Ready(s, ino) && 0 < ino && s.inodes[ino].kind == FILE && CleanTail(s, ino) && offset < U32
    ensures var (r, done) := Write(s, ino, offset, buf);
            && done == Reach(s.inodes, ino, s.sb.freeBlocks, offset, |buf|) && (done > 0 ==> offset + done <= MAX_FILE)
            && Ready(r, ino) && OtherFilesKept(s, r, ino) && BlocksAdded(s, r, ino, offset, done)
            && File(r, ino) == Overwrite(File(s, ino), offset, buf[..done]) && CleanTail(r, ino)
  {
    hide WriteFrom, Write, Reach, Own, Shape;
    WriteIs(s, ino, offset, buf);
    var s1, done := WriteLoopPatches(s, ino, offset, buf);
    FinishWrite(s, s1, ino, offset, buf[..done]);
  }

  lemma FinishWrite(s: Fs, s1: Fs, ino: nat, offset: nat, chunk: seq<byte>)
    requires Ready(s, ino) && CleanTail(s, ino) && Patched(s, s1, ino, offset, chunk) && offset + |chunk| < U32
    ensures var r := Sync(Extend(s1, ino, offset + |chunk|));
            && Ready(r, ino) && OtherFilesKept(s, r, ino) && BlocksAdded(s, r, ino, offset, |chunk|)
            && File(r, ino) == Overwrite(File(s, ino), offset, chunk) && CleanTail(r, ino)
  {
    hide Own, Cell, Touched, Sync, Extend;
    PatchedReady(s, s1, ino, offset, chunk);
    var r := Sync(Extend(s1, ino, offset + |chunk|));
    SyncedSize(s1, ino, offset + |chunk|);
    GrownFile(s, s1, r, ino, offset, chunk);
    KeptOthers(s, s1, r, ino);
  }

  lemma SyncedSize(s: Fs, ino: nat, end: nat)
    requires Ready(s, ino) && end < U32
    ensures var r := Sync(Extend(s, ino, end));
            && Ready(r, ino) && r.data == s.data && r.sb == s.sb && |r.inodes| == |s.inodes|
            && r.inodes == s.inodes[ino := s.inodes[ino].(size := Max(s.inodes[ino].size, end))]
            && forall k: nat :: Ptr(r.inodes, ino, k) == Ptr(s.inodes, ino, k)
  {
    ExtendKeeps(s, ino, end);
    SyncOwn(Extend(s, ino, end));
    SyncKeeps(Extend(s, ino, end));
    hide Own, Sync;
  }

  lemma KeptOthers(s: Fs, s1: Fs, r: Fs, ino: nat)
    requires Shape(s) && Shape(s1) && Shape(r) && ino < MAX_INODES && OnlyFile(s, s1, ino)
    requires r.data == s1.data && r.sb == s1.sb && r.inodes == s1.inodes[ino := s1.inodes[ino].(size := r.inodes[ino].size)]
    ensures OtherFilesKept(s, r, ino)
  {}

  lemma GrownFile(s: Fs, s1: Fs, r: Fs, ino: nat, offset: nat, chunk: seq<byte>)
    requires Shape(s) && Shape(s1) && Shape(r) && ino < MAX_INODES && CleanTail(s, ino)
    requires forall p: nat :: Cell(s1, ino, p) == if offset <= p < offset + |chunk| then chunk[p - offset] else Cell(s, ino, p)
    requires r.data == s1.data && forall l: nat :: Ptr(r.inodes, ino, l) == Ptr(s1.inodes, ino, l)
    requires r.inodes[ino].size == Max(s.inodes[ino].size, offset + |chunk|)
    ensures File(r, ino) == Overwrite(File(s, ino), offset, chunk) && CleanTail(r, ino)
  {
    forall p: nat ensures Cell(r, ino, p) == Cell(s1, ino, p) {}
    hide Cell;
    assert File(r, ino) == Overwrite(File(s, ino), offset, chunk);
  }

  // ---------------------------------------------------------------- files without holes

  /** Blocks needed for len bytes. */
  function Blocks(len: nat): nat { (len + BLOCK - 1) / BLOCK }

  /** How many of n bytes a write at pos can store in a hole-free file of len bytes with `free` free blocks. */
  function Room(len: nat, pos: nat, free: nat, n: nat): int {
    Max(0, Min(n, BLOCK * Min(DIRECT, Blocks(len) + free) - pos))
  }

  lemma {:induction false} WholeStuck(s: Fs, ino: nat, k: nat, free: nat)
    requires ino < |s.inodes| && HoleFree(s, ino)
    ensures k <= Blocks(s.inodes[ino].size) ==>
              Stuck(s.inodes, ino, k, free) == Min(DIRECT, Blocks(s.inodes[ino].size) + free)
    ensures Blocks(s.inodes[ino].size) <= k <= DIRECT ==> Stuck(s.inodes, ino, k, free) == Min(DIRECT, k + free)
    decreases DIRECT - k
  {
    hide Ptr, Holes;
    if k < DIRECT {
      WholeStuck(s, ino, k + 1, free);
      if free > 0 { WholeStuck(s, ino, k + 1, free - 1); }
    }
  }

  lemma WholeReach(s: Fs, ino: nat, offset: nat, free: nat, n: nat)
    requires ino < |s.inodes| && HoleFree(s, ino) && offset <= s.inodes[ino].size
    ensures Reach(s.inodes, ino, free, offset, n) == Room(s.inodes[ino].size, offset, free, n)
  {
    WholeStuck(s, ino, offset / BLOCK, free);
    hide Ptr, Holes, Stuck;
  }

  /** A write that starts inside a hole-free file or at its end leaves no hole. */
  lemma WriteKeepsWhole(s: Fs, ino: nat, offset: nat, buf: seq<byte>)
    requires Ready(s, ino) && 0 < ino && s.inodes[ino].kind == FILE && CleanTail(s, ino) && offset < U32
    requires HoleFree(s, ino) && offset <= s.inodes[ino].size
    ensures var (r, done) := Write(s, ino, offset, buf);
            HoleFree(r, ino) && done == Room(s.inodes[ino].size, offset, s.sb.freeBlocks, |buf|)
  {
    hide Write, Own, Cell, Reach, Room, Overwrite;
    WriteOverwrites(s, ino, offset, buf);
    WholeReach(s, ino, offset, s.sb.freeBlocks, |buf|);
    var (r, done) := Write(s, ino, offset, buf);
    assert |File(r, ino)| == Max(|File(s, ino)|, offset + done);
    StaysWhole(s, r, ino, offset, done);
  }

  lemma StaysWhole(s: Fs, r: Fs, ino: nat, offset: nat, n: nat)
    requires ino < |s.inodes| == |r.inodes| && HoleFree(s, ino) && offset <= s.inodes[ino].size
    requires BlocksAdded(s, r, ino, offset, n) && (n > 0 ==> offset + n <= MAX_FILE)
    requires r.inodes[ino].size == Max(s.inodes[ino].size, offset + n)
    ensures HoleFree(r, ino)
  {
    hide Ptr;
  }

  // ---------------------------------------------------------------- bfs_read

  /** `out` holds the bytes of the inode from pos on. */
  ghost predicate Holds(s: Fs, ino: nat, pos: nat, out: seq<byte>)
    requires Shape(s) && ino < MAX_INODES
  {
    forall p: nat | pos <= p < pos + |out| :: out[p - pos] == Cell(s, ino, p)
  }

  /** The read loop returns the bytes up to the first missing block. */
  lemma {:induction false} ReadLoopReads(s: Fs, ino: nat, pos: nat, n: nat)
    requires Shape(s) && ino < MAX_INODES
    ensures var r := ReadFrom(s, ino, pos, n); |r| == Reach(s.inodes, ino, 0, pos, n) && Holds(s, ino, pos, r)
    decreases n
  {
    hide Reach, Cell;
    if n == 0 || pos / BLOCK >= DIRECT {
      ReachEnd(s.inodes, ino, 0, pos, n);
    } else {
      ReachStep(s.inodes, ino, 0, pos, n);
      if Ptr(s.inodes, ino, pos / BLOCK) != 0 {
        var tc := Min(BLOCK - pos % BLOCK, n);
        var head := ReadTurn(s, ino, pos, n);
        hide Shape, Ptr, ReadFrom, Holds;
        ReadLoopReads(s, ino, pos + tc, n - tc);
        HoldsBoth(s, ino, pos, head, ReadFrom(s, ino, pos + tc, n - tc));
      }
    }
  }

  lemma ReadTurn(s: Fs, ino: nat, pos: nat, n: nat) returns (head: seq<byte>)
    requires Shape(s) && ino < MAX_INODES && n > 0 && pos / BLOCK < DIRECT && Ptr(s.inodes, ino, pos / BLOCK) != 0
    ensures |head| == Min(BLOCK - pos % BLOCK, n) && Holds(s, ino, pos, head)
    ensures ReadFrom(s, ino, pos, n) == head + ReadFrom(s, ino, pos + |head|, n - |head|)
  {
    var tc := Min(BLOCK - pos % BLOCK, n);
    head := s.data[Ptr(s.inodes, ino, pos / BLOCK)][pos % BLOCK..pos % BLOCK + tc];
    HoldsHead(s, ino, pos, tc);
    hide Holds;
  }

  lemma HoldsHead(s: Fs, ino: nat, pos: nat, n: nat)
    requires Shape(s) && ino < MAX_INODES && n <= BLOCK - pos % BLOCK && Ptr(s.inodes, ino, pos / BLOCK) != 0
    ensures Holds(s, ino, pos, s.data[Ptr(s.inodes, ino, pos / BLOCK)][pos % BLOCK..pos % BLOCK + n])
  {
    var head := s.data[Ptr(s.inodes, ino, pos / BLOCK)][pos % BLOCK..pos % BLOCK + n];
    forall p: nat | pos <= p < pos + n ensures head[p - pos] == Cell(s, ino, p) {
      assert p / BLOCK == pos / BLOCK && p % BLOCK == pos % BLOCK + (p - pos);
    }
  }

  lemma HoldsBoth(s: Fs, ino: nat, pos: nat, a: seq<byte>, b: seq<byte>)
    requires Shape(s) && ino < MAX_INODES && Holds(s, ino, pos, a) && Holds(s, ino, pos + |a|, b)
    ensures Holds(s, ino, pos, a + b)
  {
    hide Cell;
  }

  lemma HoldsSlice(s: Fs, ino: nat, pos: nat, out: seq<byte>)
    requires Shape(s) && ino < MAX_INODES && Holds(s, ino, pos, out) && pos + |out| <= s.inodes[ino].size
    ensures out == File(s, ino)[pos..pos + |out|]
  {
    var c := File(s, ino)[pos..pos + |out|];
    forall i | 0 <= i < |out| ensures out[i] == c[i] {
      assert out[pos + i - pos] == Cell(s, ino, pos + i);
    }
  }

  /** bfs_read of any file: the bytes from the offset to the first hole, the end of the file, or the size
      asked for, whichever comes first, as long as the sum of offset and size does not wrap. */
  lemma ReadIs(s: Fs, ino: nat, offset: nat, n: nat)
    requires Shape(s) && 0 < ino < MAX_INODES && s.inodes[ino].kind == FILE && offset + n < U32
    ensures var c := File(s, ino);
            var m := if offset >= |c| then 0 else Reach(s.inodes, ino, 0, offset, Min(n, |c| - offset));
            Read(s, ino, offset, n) == (m as int, if m == 0 then [] else c[offset..offset + m])
  {
    hide Reach, Cell, ReadFrom, Holds;
    var c := File(s, ino);
    if offset < |c| {
      ReadLoopReads(s, ino, offset, Min(n, |c| - offset));
      assert (offset + n) % U32 == offset + n;
      HoldsSlice(s, ino, offset, Read(s, ino, offset, n).1);
    }
  }

  /** What a read of n bytes at the offset ought to return. */
  function Slice(c: seq<byte>, offset: nat, n: nat): seq<byte> {
    if offset >= |c| then [] else c[offset..Min(offset + n, |c|)]
  }

  /** bfs_read of a hole-free file returns the requested slice exactly when offset + size stays below
      2^32, or the offset is behind the end, or the file ends with a full block: otherwise the wrapped sum
      misses the cut, and the rest of the last block is returned behind the file's bytes. */
  lemma ReadIsSliceIff(s: Fs, ino: nat, offset: nat, n: nat)
    requires Shape(s) && 0 < ino < MAX_INODES && s.inodes[ino].kind == FILE && HoleFree(s, ino)
    requires offset < U32 && n < U32
    ensures var size := s.inodes[ino].size;
            Read(s, ino, offset, n).1 == Slice(File(s, ino), offset, n)
            <==> offset >= size || offset + n < U32 || size % BLOCK == 0
  {
    hide Reach, Cell, ReadFrom, Room, Holds;
    var c := File(s, ino);
    var size := |c|;
    if offset < size {
      var w := Wanted(size, offset, n);
      ReadLoopReads(s, ino, offset, w);
      WholeReach(s, ino, offset, 0, w);
      WantedIs(size, offset, n);
      WantedRoom(size, offset, n);
      var out := Read(s, ino, offset, n).1;
      if |out| == Min(n, size - offset) { HoldsSlice(s, ino, offset, out); }
    }
  }

  lemma WantedIs(size: nat, offset: nat, n: nat)
    requires offset < size <= MAX_FILE && n < U32
    ensures Wanted(size, offset, n) == if offset + n < U32 then Min(n, size - offset) else n
  {}

  lemma WantedRoom(size: nat, offset: nat, n: nat)
    requires offset < size <= MAX_FILE && n < U32
    ensures Room(size, offset, 0, Wanted(size, offset, n)) == Min(n, size - offset)
            <==> offset + n < U32 || size % BLOCK == 0
  {
    WantedIs(size, offset, n);
  }

  /** As long as offset + size does not wrap the slice is returned, and its length as the count. */
  lemma ReadIsSlice(s: Fs, ino: nat, offset: nat, n: nat)
    requires Shape(s) && 0 < ino < MAX_INODES && s.inodes[ino].kind == FILE && HoleFree(s, ino) && offset + n < U32
    ensures Read(s, ino, offset, n) == (|Slice(File(s, ino), offset, n)|, Slice(File(s, ino), offset, n))
  {
    hide ReadFrom, Cell, Shape, Slice, HoleFree;
    ReadIsSliceIff(s, ino, offset, n);
  }

  /** The family's smallest case: a 5-byte file read at offset 1 for 2^32 - 1 bytes yields 4095. */
  lemma WrappedReadOverruns(s: Fs, ino: nat)
    requires Shape(s) && 0 < ino < MAX_INODES && s.inodes[ino].kind == FILE && HoleFree(s, ino)
    requires s.inodes[ino].size == 5
    ensures |Read(s, ino, 1, U32 - 1).1| == 4095 && |Slice(File(s, ino), 1, U32 - 1)| == 4
  {
    ReadLoopReads(s, ino, 1, U32 - 1);
    WholeReach(s, ino, 1, 0, U32 - 1);
    hide ReadFrom, Reach, Cell, Holds;
  }

  lemma {:induction false} PresentReach(t: seq<Inode>, ino: nat, pos: nat, n: nat)
    requires pos + n <= MAX_FILE && forall k: nat | Touched(pos, n, k) :: Ptr(t, ino, k) != 0
    ensures Reach(t, ino, 0, pos, n) == n
    decreases n
  {
    hide Ptr, Reach;
    if n == 0 {
      ReachEnd(t, ino, 0, pos, 0);
    } else {
      assert Touched(pos, n, pos / BLOCK);
      ReachStep(t, ino, 0, pos, n);
      var m := Min(BLOCK - pos % BLOCK, n);
      forall k: nat | Touched(pos + m, n - m, k) ensures Touched(pos, n, k) { TouchedTwice(pos, m, n - m, k); }
      PresentReach(t, ino, pos + m, n - m);
    }
  }

  /** What was written is read back, at any offset and whatever holes the file has, and no other file
      reads differently. */
  lemma WriteThenRead(s: Fs, ino: nat, offset: nat, buf: seq<byte>)
    requires Ready(s, ino) && 0 < ino && s.inodes[ino].kind == FILE && CleanTail(s, ino) && offset < U32
    ensures var (r, done) := Write(s, ino, offset, buf);
            && done >= 0 && Read(r, ino, offset, done).1 == buf[..done]
            && forall j: nat | j < MAX_INODES && j != ino :: ReadsAlike(s, r, j)
  {
    hide Own, Write, Read, Reach, Cell, Touched, Overwrite;
    WriteOverwrites(s, ino, offset, buf);
    var (r, done) := Write(s, ino, offset, buf);
    if done > 0 { PresentReach(r.inodes, ino, offset, done); }
    assert |File(r, ino)| == Max(|File(s, ino)|, offset + done);
    ReadIs(r, ino, offset, done);
    forall j: nat | j < MAX_INODES && j != ino ensures ReadsAlike(s, r, j) {
      OtherFileSame(s, r, ino, j);
      SameFileSameBytes(s, r, j);
    }
  }
}

/** Mounting StackFS again reproduces the mounted state. */
module StackFsRemount {
  import opened Bytes
  import opened StackFsLayout
  import opened StackFs
  import opened StackFsInvariant
  import opened StackFsFiles
  import opened StackFsDirs
  import opened StackFsDirOps
  import opened StackFsVolume
  import opened StackFsUnlink

  ghost predicate SuperSaved(s: Fs)
    requires Shape(s)
  {
    s.meta[SB_SECTOR] == PutSuper(s.sb)
  }

  ghost predicate TableSaved(s: Fs)
    requires Shape(s)
  {
    s.meta[INODE_START..BITMAP_START] == Cut(PutTable(s.inodes))
  }

  ghost predicate BitmapSaved(s: Fs)
    requires Shape(s)
  {
    s.meta[BITMAP_START..] == Cut(s.bitmap)
  }

  /** A part of the memory image whose dirty flag is clear is on the disk. */
  ghost predicate Coherent(s: Fs)
    requires Shape(s)
  {
    && (!s.sbDirty ==> SuperSaved(s)) && (!s.inodesDirty ==> TableSaved(s)) && (!s.bitmapDirty ==> BitmapSaved(s))
  }

  /** Everything is on the disk. */
  ghost predicate InSync(s: Fs) {
    Shape(s) && !s.sbDirty && !s.inodesDirty && !s.bitmapDirty && SuperSaved(s) && TableSaved(s) && BitmapSaved(s)
  }

  lemma SyncSaves(s: Fs)
    requires Shape(s) && Coherent(s)
    ensures InSync(Sync(s))
  {
    hide PutTable, PutSuper, Cut;
    var a := SyncInodes(s);
    assert TableSaved(a) && !a.inodesDirty && (!a.sbDirty ==> SuperSaved(a)) && (!a.bitmapDirty ==> BitmapSaved(a)) by {
      if s.inodesDirty {
        assert a.meta[INODE_START..BITMAP_START] == Cut(PutTable(s.inodes));
        assert a.meta[BITMAP_START..] == s.meta[BITMAP_START..];
      }
    }
    var b := SyncBitmap(a);
    assert BitmapSaved(b) && TableSaved(b) && !b.bitmapDirty && (!b.sbDirty ==> SuperSaved(b)) by {
      if a.bitmapDirty {
        assert b.meta[BITMAP_START..] == Cut(s.bitmap);
        assert b.meta[INODE_START..BITMAP_START] == a.meta[INODE_START..BITMAP_START];
      }
    }
    var c := SyncSuper(b);
    assert c.meta[INODE_START..] == b.meta[INODE_START..];
    assert c.meta[INODE_START..BITMAP_START] == b.meta[INODE_START..][..30];
    assert b.meta[INODE_START..BITMAP_START] == b.meta[INODE_START..][..30];
    assert c.meta[BITMAP_START..] == b.meta[INODE_START..][30..] == b.meta[BITMAP_START..];
  }

  /** stackfs_mount, from whatever memory contents, rebuilds the superblock fields, the inode table
      and the bitmap of a synchronised volume (all but four padding bytes that are never written). */
  /** stackfs_mount accepts a disk exactly when its first four bytes are the magic number, lowest byte first;
      otherwise only the superblock in memory has changed. */
  lemma MountAcceptsIff(before: Fs)
    requires |before.meta| == DATA_START && SuperFits(before.sb)
    ensures var (r, ok) := Mount(before);
            && (ok <==> LittleAt(before.meta[SB_SECTOR], 0, MAGIC))
            && (!ok ==> r == before.(sb := r.sb))
  {
    WordReads(before.meta[SB_SECTOR], MAGIC);
    hide LittleAt, GetU32;
  }

  lemma RemountIsIdentity(s: Fs, before: Fs)
    requires InSync(s) && s.sb.magic == MAGIC
    requires before.meta == s.meta && before.data == s.data && SuperFits(before.sb)
    ensures Mount(before) == (s.(sb := s.sb.(pad := s.sb.pad[..448] + before.sb.pad[448..])), true)
  {
    SuperRoundTrip(s.sb, before.sb);
    TableRoundTrip(s.inodes);
    JoinCut(PutTable(s.inodes), INODE_SECS);
    JoinCut(s.bitmap, BITMAP_SECS);
  }

  /** The disk determines the inode table, so a table that differs from the saved one is lost. */
  lemma TableImageInjective(t: seq<Inode>, u: seq<Inode>)
    requires TableFits(t) && TableFits(u) && |t| == |u| == MAX_INODES && Cut(PutTable(t)) == Cut(PutTable(u))
    ensures t == u
  {
    JoinCut(PutTable(t), INODE_SECS);
    JoinCut(PutTable(u), INODE_SECS);
    TableRoundTrip(t);
    TableRoundTrip(u);
  }

  // ---------------------------------------------------------------- write

  /** What the write loop leaves in memory: metadata sectors and inode flag untouched, the other
      flags set when their part changed, and no pointer lost. */
  ghost predicate LoopFrame(s: Fs, r: Fs, ino: nat)
    requires ino < |s.inodes|
  {
    && r.meta == s.meta && r.inodesDirty == s.inodesDirty && |r.inodes| == |s.inodes|
    && (s.sbDirty || r.sb != s.sb ==> r.sbDirty) && (s.bitmapDirty || r.bitmap != s.bitmap ==> r.bitmapDirty)
    && r.inodes == s.inodes[ino := s.inodes[ino].(blocks := r.inodes[ino].blocks)]
    && (forall k: nat | Ptr(s.inodes, ino, k) != 0 :: Ptr(r.inodes, ino, k) == Ptr(s.inodes, ino, k))
  }

  lemma PutChunkFlags(s: Fs, ino: nat, pos: nat, chunk: seq<byte>)
    requires Shape(s) && ino < MAX_INODES && pos / BLOCK < DIRECT && pos % BLOCK + |chunk| <= BLOCK
    ensures LoopFrame(s, PutChunk(s, ino, pos, chunk).0, ino)
  {
    hide Splice, Mark, FirstFree;
    assert s.inodes[ino := s.inodes[ino].(blocks := s.inodes[ino].blocks)] == s.inodes;
  }

  lemma {:induction false} WriteFromFlags(s: Fs, ino: nat, pos: nat, buf: seq<byte>)
    requires Shape(s) && ino < MAX_INODES
    ensures LoopFrame(s, WriteFrom(s, ino, pos, buf).0, ino)
    decreases |buf|
  {
    hide PutChunk;
    assert s.inodes[ino := s.inodes[ino].(blocks := s.inodes[ino].blocks)] == s.inodes;
    if buf != [] && pos / BLOCK < DIRECT {
      var n := ChunkAt(pos, buf);
      var (s1, ok) := PutChunk(s, ino, pos, buf[..n]);
      PutChunkFlags(s, ino, pos, buf[..n]);
      if ok { WriteFromFlags(s1, ino, pos + n, buf[n..]); }
    }
  }

  /** The write fills a hole: one of the blocks that hold its n bytes is missing, and a block is free. */
  ghost predicate FillsHole(s: Fs, ino: nat, offset: nat, n: nat) {
    s.sb.freeBlocks > 0 && exists k: nat :: k < DIRECT && Touched(offset, n, k) && Ptr(s.inodes, ino, k) == 0
  }

  /** The write makes the file longer: what it reaches ends behind the old end. */
  ghost predicate Grows(s: Fs, ino: nat, offset: nat, n: nat)
    requires ino < |s.inodes|
  {
    offset + Reach(s.inodes, ino, s.sb.freeBlocks, offset, n) > s.inodes[ino].size
  }

  lemma {:induction false} SomeHole(t: seq<Inode>, ino: nat, k: nat, l: nat)
    ensures Holes(t, ino, k, l) > 0 <==> exists h: nat :: k <= h < l && Ptr(t, ino, h) == 0
    decreases l - k
  {
    hide Ptr;
    if k < l { SomeHole(t, ino, k + 1, l); }
  }

  /** The loop fills a hole exactly when the write touches one and a block is free. */
  lemma ReachedHole(s: Fs, ino: nat, offset: nat, n: nat)
    ensures var m := Reach(s.inodes, ino, s.sb.freeBlocks, offset, n);
            FillsHole(s, ino, offset, n) <==> exists k: nat :: Touched(offset, m, k) && Ptr(s.inodes, ino, k) == 0
  {
    hide Ptr;
    var start, free := offset / BLOCK, s.sb.freeBlocks;
    var r, m := Stuck(s.inodes, ino, start, free), Reach(s.inodes, ino, free, offset, n);
    SomeHole(s.inodes, ino, start, r);
    forall k: nat ensures Touched(offset, m, k) <==> Touched(offset, n, k) && k < r { ReachTouches(offset, n, r, m, k); }
    hide Stuck, Holes, Reach;
    if FillsHole(s, ino, offset, n) {
      var k: nat :| k < DIRECT && Touched(offset, n, k) && Ptr(s.inodes, ino, k) == 0;
      if r <= k {
        var h: nat :| start <= h < r && Ptr(s.inodes, ino, h) == 0;
        assert Touched(offset, n, h) && Touched(offset, m, h);
      }
    }
  }

  lemma ReachTouches(offset: nat, n: nat, r: nat, m: nat, k: nat)
    requires m == Max(0, Min(n, BLOCK * r - offset))
    ensures Touched(offset, m, k) <==> Touched(offset, n, k) && k < r
  {}

  /** The write loop changes the inode table exactly when the write fills a hole. */
  lemma TableChangesIff(s: Fs, ino: nat, offset: nat, buf: seq<byte>)
    requires Ready(s, ino)
    ensures WriteFrom(s, ino, offset, buf).0.inodes != s.inodes <==> FillsHole(s, ino, offset, |buf|)
  {
    hide Own, Cell, WriteFrom, Reach, Touched;
    var r, done := WriteLoopPatches(s, ino, offset, buf);
    ReachedHole(s, ino, offset, |buf|);
    WriteFromFlags(s, ino, offset, buf);
    if !FillsHole(s, ino, offset, |buf|) { SamePointers(s, r, ino); }
  }

  lemma SamePointers(s: Fs, r: Fs, ino: nat)
    requires Shape(s) && Shape(r) && ino < MAX_INODES
    requires forall k: nat :: Ptr(r.inodes, ino, k) == Ptr(s.inodes, ino, k)
    requires r.inodes == s.inodes[ino := s.inodes[ino].(blocks := r.inodes[ino].blocks)]
    ensures r.inodes == s.inodes
  {
    forall k | 0 <= k < DIRECT ensures r.inodes[ino].blocks[k] == s.inodes[ino].blocks[k] {
      assert r.inodes[ino].blocks[k] == Ptr(r.inodes, ino, k) && s.inodes[ino].blocks[k] == Ptr(s.inodes, ino, k);
    }
    assert r.inodes[ino].blocks == s.inodes[ino].blocks;
    assert r.inodes[ino] == s.inodes[ino];
  }

  /** After bfs_write disk and memory agree exactly when the file grows or no hole is filled: filling a
      hole changes the inode, but only growing marks the inode table dirty. */
  lemma WriteInSyncIff(s: Fs, ino: nat, offset: nat, buf: seq<byte>)
    requires InSync(s) && Ready(s, ino) && LiveFile(s, ino) && offset < U32
    ensures InSync(Write(s, ino, offset, buf).0) <==> Grows(s, ino, offset, |buf|) || !FillsHole(s, ino, offset, |buf|)
  {
    hide Own, WriteFrom, SuperSaved, TableSaved, BitmapSaved, Sync, Write, Reach, FillsHole, Patched;
    TableChangesIff(s, ino, offset, buf);
    WriteFromFlags(s, ino, offset, buf);
    WriteIs(s, ino, offset, buf);
    var s1, done := WriteLoopPatches(s, ino, offset, buf);
    WriteCoherence(s, s1, Extend(s1, ino, offset + done), ino, offset + done);
  }

  lemma WriteCoherence(s: Fs, s1: Fs, s2: Fs, ino: nat, end: nat)
    requires InSync(s) && Shape(s1) && ino < MAX_INODES && end < U32 && s2 == Extend(s1, ino, end)
    requires s1.meta == s.meta && !s1.inodesDirty
    requires (s1.sb != s.sb ==> s1.sbDirty) && (s1.bitmap != s.bitmap ==> s1.bitmapDirty)
    requires s1.inodes[ino].size == s.inodes[ino].size
    ensures InSync(Sync(s2)) <==> end > s.inodes[ino].size || s1.inodes == s.inodes
  {
    hide PutTable, PutSuper, Cut;
    if end > s.inodes[ino].size || s1.inodes == s.inodes {
      SyncSaves(s2);
    } else {
      SyncLeavesTable(s2);
      if Cut(PutTable(s1.inodes)) == Cut(PutTable(s.inodes)) {
        TableImageInjective(s1.inodes, s.inodes);
        assert false;
      }
    }
  }

  lemma SyncLeavesTable(s: Fs)
    requires Shape(s) && !s.inodesDirty
    ensures Sync(s).inodes == s.inodes
    ensures Sync(s).meta[INODE_START..BITMAP_START] == s.meta[INODE_START..BITMAP_START]
  {
    hide PutTable, PutSuper, Cut;
    var b := SyncBitmap(s);
    assert b.meta[INODE_START..BITMAP_START] == s.meta[INODE_START..BITMAP_START];
    var c := SyncSuper(b);
    assert c.meta[INODE_START..BITMAP_START] == b.meta[INODE_START..BITMAP_START];
  }

  /** A write that starts inside a hole-free file or at its end fills a hole only when it grows the file. */
  lemma WholeWriteGrows(s: Fs, ino: nat, offset: nat, n: nat)
    requires ino < |s.inodes| && HoleFree(s, ino) && offset <= s.inodes[ino].size && FillsHole(s, ino, offset, n)
    ensures Grows(s, ino, offset, n)
  {
    WholeReach(s, ino, offset, s.sb.freeBlocks, n);
    hide Reach, Ptr;
  }

  /** So on hole-free files such writes leave the disk in step with memory. */
  lemma WriteKeepsSync(s: Fs, ino: nat, offset: nat, buf: seq<byte>)
    requires Inv(s) && InSync(s) && LiveFile(s, ino) && HoleFree(s, ino) && offset <= s.inodes[ino].size
    ensures InSync(Write(s, ino, offset, buf).0)
  {
    hide Own, Dirs, TailsClean, InSync, Write, Reach, FillsHole, HoleFree;
    WriteInSyncIff(s, ino, offset, buf);
    if FillsHole(s, ino, offset, |buf|) { WholeWriteGrows(s, ino, offset, |buf|); }
  }

  /** The failing family: writing one byte into a hole before the end of a file. */
  lemma FilledHoleIsLost(s: Fs, ino: nat, x: byte)
    requires InSync(s) && Ready(s, ino) && LiveFile(s, ino) && s.sb.freeBlocks > 0
    requires Ptr(s.inodes, ino, 0) == 0 && s.inodes[ino].size > 0
    ensures !InSync(Write(s, ino, 0, [x]).0)
  {
    hide Own, InSync, Write, Reach, Ptr;
    WriteInSyncIff(s, ino, 0, [x]);
    assert Touched(0, 1, 0);
  }

  /** It is reached by two writes to an empty file: one byte at offset 4096 grows the file over a hole,
      one byte at offset 0 fills the hole, and the disk keeps an inode without the second block. */
  lemma TwoWritesLoseTable(s: Fs, ino: nat, x: byte, y: byte)
    requires Inv(s) && InSync(s) && LiveFile(s, ino) && HoleFree(s, ino) && s.inodes[ino].size == 0 && s.sb.freeBlocks >= 2
    ensures var w := Write(s, ino, BLOCK, [x]).0;
            Inv(w) && InSync(w) && LiveFile(w, ino) && !InSync(Write(w, ino, 0, [y]).0)
  {
    hide Own, Dirs, CleanTail, InSync, Write, Cell, Overwrite;
    OneByteReach(s, ino, BLOCK);
    WriteInSyncIff(s, ino, BLOCK, [x]);
    WriteOverwrites(s, ino, BLOCK, [x]);
    WriteRefines(s, ino, BLOCK, [x]);
    OneByteFree(s, ino, BLOCK, x);
    hide Reach;
    var w := Write(s, ino, BLOCK, [x]).0;
    assert |File(w, ino)| == BLOCK + 1 && !Touched(BLOCK, 1, 0);
    FilledHoleIsLost(w, ino, y);
  }

  lemma OneByteReach(s: Fs, ino: nat, pos: nat)
    requires s.sb.freeBlocks > 0 && pos / BLOCK < DIRECT
    ensures Reach(s.inodes, ino, s.sb.freeBlocks, pos, 1) == 1
  {
    ReachStep(s.inodes, ino, s.sb.freeBlocks, pos, 1);
    hide Reach;
  }

  lemma OneByteFree(s: Fs, ino: nat, pos: nat, x: byte)
    requires Ready(s, ino) && LiveFile(s, ino) && pos / BLOCK < DIRECT && s.sb.freeBlocks > 0
    ensures Write(s, ino, pos, [x]).0.sb.freeBlocks >= s.sb.freeBlocks - 1
  {
    PatchOne(s, ino, pos, [x]);
    hide Own, PutChunk, WriteFrom, Patched, Write, Sync;
    OneByte(s, ino, pos, x);
    WriteIs(s, ino, pos, [x]);
    SyncKeeps(Extend(PutChunk(s, ino, pos, [x]).0, ino, pos + 1));
  }

  lemma OneByte(s: Fs, ino: nat, pos: nat, x: byte)
    requires Shape(s) && ino < MAX_INODES && pos / BLOCK < DIRECT && PutChunk(s, ino, pos, [x]).1
    ensures WriteFrom(s, ino, pos, [x]) == (PutChunk(s, ino, pos, [x]).0, 1)
  {
    hide PutChunk;
    assert ChunkAt(pos, [x]) == 1 && [x][..1] == [x] && [x][1..] == [];
  }

  // ---------------------------------------------------------------- create, mkdir, unlink

  lemma OnlyDirCoherent(s: Fs, r: Fs, di: nat)
    requires Shape(s) && Shape(r) && di < MAX_INODES && Coherent(s) && OnlyDir(s, r, di)
    ensures Coherent(r)
  {
    hide PutTable, PutSuper, Cut;
  }

  lemma MakeKeepsSync(s: Fs, di: nat, name: seq<byte>, kind: byte, perm: nat)
    requires Inv(s) && InSync(s) && LiveDir(s, di) && 0 !in name && kind in {FILE, DIR} && perm < U16
    ensures InSync(Make(s, di, name, kind, perm).0)
  {
    hide Own, AddEntry, SuperSaved, TableSaved, BitmapSaved, Sync, Make, HasRoom, Target, NameOf;
    MakeSteps(s, di, name, kind, perm);
    if NewChild(s) >= 0 {
      var t := WithChild(s, name, kind, perm);
      NewInode(s, NewChild(s), t.inodes[NewChild(s)]);
      AddEntryEnters(t, di, NewChild(s), name, 0);
      var u := AddEntry(t, di, NewChild(s), name, 0).0;
      assert Coherent(t) by { WithChildCoherent(s, name, kind, perm); }
      if u != t { OnlyDirCoherent(t, u, di); }
      SyncSaves(u);
    }
  }

  lemma WithChildCoherent(s: Fs, name: seq<byte>, kind: byte, perm: nat)
    requires InSync(s) && NewChild(s) >= 0 && perm < U16
    ensures Coherent(WithChild(s, name, kind, perm))
  {
    hide PutTable, PutSuper, Cut;
  }

  lemma UnlinkKeepsSync(s: Fs, di: nat, name: seq<byte>)
    requires Inv(s) && InSync(s) && LiveDir(s, di)
    ensures forall q | 0 <= q < MAX_SLOTS && Used(s, di, q) :: SlotIno(s, di, q) < MAX_INODES
    ensures InSync(Unlink(s, di, name).0)
  {
    hide Target, NameOf, Own, Used, SlotIno, FindSlot, Sync, Unlink, SuperSaved, TableSaved, BitmapSaved;
    EntriesInRange(s, di);
    UnlinkSteps(s, di, name);
    ScanIsComplete(s, di, name);
    var q := FindSlot(s, di, name, 0);
    if q < MAX_SLOTS {
      TargetOfMatch(s, di, q);
      UnlinkedCoherent(s, di, q);
      SyncSaves(Unlinked(s, di, q));
    }
  }

  lemma UnlinkedCoherent(s: Fs, di: nat, q: nat)
    requires Inv(s) && InSync(s) && LiveDir(s, di) && Target(s, di, q) != 0
    requires Used(s, di, q) && SlotIno(s, di, q) == Target(s, di, q) < MAX_INODES
    ensures Coherent(Unlinked(s, di, q))
  {
    hide Own, PutTable, PutSuper, Cut, PutEntry, EntryName, EntryIno;
    var ci := Target(s, di, q);
    assert s.inodes[ci].kind != FREE by { assert TargetsLive(s); }
    ReleaseKeeps(s, ci);
    hide Release;
  }
}

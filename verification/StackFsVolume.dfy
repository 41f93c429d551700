/** The volume invariant, kept by every operation, and what each operation does to the
    abstract files and directories. */
module StackFsVolume {
  import opened Bytes
  import opened StackFsLayout
  import opened StackFs
  import opened StackFsInvariant
  import opened StackFsFiles
  import opened StackFsDirs
  import opened StackFsDirOps

  /** No file has holes. */
  ghost predicate FilesWhole(s: Fs)
    requires Shape(s)
  {
    forall i: nat | i < MAX_INODES && s.inodes[i].kind == FILE :: HoleFree(s, i)
  }

  ghost predicate TailsClean(s: Fs)
    requires Shape(s)
  {
    forall i: nat | i < MAX_INODES && s.inodes[i].kind == FILE :: CleanTail(s, i)
  }

  ghost predicate Core(s: Fs) {
    Shape(s) && Own(s) && Dirs(s) && TailsClean(s)
  }

  /** A volume whose block 0 has been handed out. */
  ghost predicate Inv(s: Fs) {
    Core(s) && Taken(s.bitmap, 0)
  }

  ghost predicate LiveFile(s: Fs, i: nat) {
    0 < i < |s.inodes| && s.inodes[i].kind == FILE
  }

  /** Every directory entry is the same in both states. */
  ghost predicate SameEntries(s: Fs, r: Fs)
    requires Shape(s) && Shape(r)
  {
    forall i: nat, q: nat :: Target(r, i, q) == Target(s, i, q) && NameOf(r, i, q) == NameOf(s, i, q)
  }

  /** Every file of s other than x is still there, its inode and blocks untouched. */
  ghost predicate FilesKept(s: Fs, r: Fs, x: nat)
    requires Shape(s) && Shape(r)
  {
    |s.inodes| == |r.inodes| && forall j: nat | LiveFile(s, j) && j != x :: LiveFile(r, j) && SameFile(s, r, j)
  }

  /** A property of single files that survives with the files: clean tails, and the absence of holes. */
  lemma KeptFiles(s: Fs, r: Fs, x: nat)
    requires Shape(s) && Shape(r) && FilesKept(s, r, x)
    requires forall j: nat | LiveFile(r, j) && j != x :: LiveFile(s, j)
    requires s.inodes[0].kind != FILE && r.inodes[0].kind != FILE
    ensures TailsClean(s) && (LiveFile(r, x) ==> CleanTail(r, x)) ==> TailsClean(r)
    ensures FilesWhole(s) && (LiveFile(r, x) ==> HoleFree(r, x)) ==> FilesWhole(r)
  {
    forall j: nat | LiveFile(r, j) && j != x
      ensures (CleanTail(s, j) <==> CleanTail(r, j)) && (HoleFree(s, j) <==> HoleFree(r, j))
    {
      SameFileSameBytes(s, r, j);
    }
    hide CleanTail, HoleFree, SameFile;
    forall i: nat | i < MAX_INODES && r.inodes[i].kind == FILE
      ensures LiveFile(r, i) && (i != x ==> LiveFile(s, i) && (CleanTail(s, i) <==> CleanTail(r, i)) && (HoleFree(s, i) <==> HoleFree(r, i)))
    {}
  }

  // ---------------------------------------------------------------- write

  lemma OtherDirsKept(s: Fs, r: Fs, ino: nat)
    requires Shape(s) && Shape(r) && ino < MAX_INODES && Dirs(s)
    requires s.inodes[ino].kind != DIR && OtherFilesKept(s, r, ino)
    ensures SameEntries(s, r) && Dirs(r)
  {
    hide EntryIno, EntryName, TargetsDistinct, TargetsLive;
    forall i: nat | i < MAX_INODES && s.inodes[i].kind == DIR ensures Prefix(r.inodes, i) {
      assert forall k: nat :: Ptr(r.inodes, i, k) == Ptr(s.inodes, i, k);
    }
    forall i: nat, q: nat
      ensures Target(r, i, q) == Target(s, i, q) && NameOf(r, i, q) == NameOf(s, i, q)
    {
      assert i != ino ==> Ptr(r.inodes, i, q / PER_BLOCK) == Ptr(s.inodes, i, q / PER_BLOCK);
    }
    forall i: nat, q: nat | i < MAX_INODES && r.inodes[i].kind == DIR && Used(r, i, q) ensures 0 in SlotName(r, i, q) {
      assert Ptr(r.inodes, i, q / PER_BLOCK) == Ptr(s.inodes, i, q / PER_BLOCK);
      assert SlotName(s, i, q) == SlotName(r, i, q);
    }
    TargetsCarry(s, r);
  }

  lemma TargetsCarry(s: Fs, r: Fs)
    requires Shape(s) && Shape(r) && TargetsLive(s) && TargetsDistinct(s)
    requires forall i: nat, q: nat :: Target(r, i, q) == Target(s, i, q)
    requires forall i: nat | i < MAX_INODES && s.inodes[i].kind != FREE :: r.inodes[i].kind != FREE
    ensures TargetsLive(r) && TargetsDistinct(r)
  {
    hide Target;
  }

  /** bfs_write on a live file, at any offset: the file's bytes are overwritten with as much of buf as the
      loop reaches, and every directory and every other file is as before. */
  lemma WriteRefines(s: Fs, ino: nat, offset: nat, buf: seq<byte>)
    requires Inv(s) && LiveFile(s, ino) && offset < U32
    ensures var (r, done) := Write(s, ino, offset, buf);
            && Inv(r) && SameEntries(s, r) && FilesKept(s, r, ino) && OtherFilesKept(s, r, ino)
            && done == Reach(s.inodes, ino, s.sb.freeBlocks, offset, |buf|)
            && LiveFile(r, ino) && File(r, ino) == Overwrite(File(s, ino), offset, buf[..done])
            && (FilesWhole(s) && offset <= s.inodes[ino].size ==> FilesWhole(r))
  {
    hide Own, Dirs, Write, Cell, Reach, Overwrite, BlocksAdded, CleanTail, HoleFree;
    WriteOverwrites(s, ino, offset, buf);
    var r := Write(s, ino, offset, buf).0;
    OtherDirsKept(s, r, ino);
    NoInodeZero(s);
    NoInodeZero(r);
    forall j: nat | LiveFile(s, j) && j != ino ensures LiveFile(r, j) && SameFile(s, r, j) {
      OtherFileSame(s, r, ino, j);
    }
    assert forall j: nat | LiveFile(r, j) :: LiveFile(s, j);
    if FilesWhole(s) && offset <= s.inodes[ino].size { WriteKeepsWhole(s, ino, offset, buf); }
    KeptFiles(s, r, ino);
  }

  lemma NoInodeZero(s: Fs)
    requires Shape(s) && Dirs(s)
    ensures s.inodes[0].kind == FREE
  {
  }

  // ---------------------------------------------------------------- create and mkdir

  /** Filling in a free inode: no directory changes, and a new directory is empty. */
  lemma NewInode(s: Fs, ni: nat, node: Inode)
    requires Core(s) && 0 < ni < MAX_INODES && s.inodes[ni].kind == FREE
    requires InodeFits(node) && node.kind in {FILE, DIR} && node.size == 0 && node.blocks == s.inodes[ni].blocks
    ensures var r := s.(inodes := PutNode(s.inodes, ni, node), sb := s.sb.(freeInodes := Dec(s.sb.freeInodes)),
                        sbDirty := true, inodesDirty := true);
            Core(r) && SameEntries(s, r) && s.sb.freeInodes > 0 && FilesKept(s, r, 0) && (FilesWhole(s) ==> FilesWhole(r))
  {
    var r := s.(inodes := PutNode(s.inodes, ni, node), sb := s.sb.(freeInodes := Dec(s.sb.freeInodes)),
                sbDirty := true, inodesDirty := true);
    CountInodeUpdate(s.inodes, ni, node);
    NewInodeOwn(s.inodes, ni, node, s.bitmap, s.sb.totalBlocks);
    hide OwnTable, CountFree, CountFreeInodes;
    NewInodeDirs(s, r, ni);
    NewInodeFiles(s, r, ni);
  }

  lemma NewInodeOwn(t: seq<Inode>, ni: nat, node: Inode, bitmap: seq<byte>, total: nat)
    requires ni < |t| && total <= 8 * |bitmap| && OwnTable(t, bitmap, total)
    requires t[ni].kind == FREE && node.blocks == t[ni].blocks
    ensures OwnTable(PutNode(t, ni, node), bitmap, total)
  {
    var r := PutNode(t, ni, node);
    forall b: nat | 0 < b < 8 * |bitmap| && Taken(bitmap, b) ensures exists i: nat, k: nat :: Ptr(r, i, k) == b {
      var i: nat, k: nat :| Ptr(t, i, k) == b;
      assert Ptr(r, i, k) == b;
    }
  }

  lemma NewInodeDirs(s: Fs, r: Fs, ni: nat)
    requires Shape(s) && Shape(r) && Dirs(s) && 0 < ni < MAX_INODES && s.inodes[ni].kind == FREE
    requires r.data == s.data && (forall i: nat, k: nat :: Ptr(r.inodes, i, k) == Ptr(s.inodes, i, k))
    requires forall i: nat | i < MAX_INODES && i != ni :: r.inodes[i] == s.inodes[i]
    requires r.inodes[ni].kind != FREE && forall k: nat :: Ptr(r.inodes, ni, k) == 0
    ensures Dirs(r) && SameEntries(s, r)
  {
    hide EntryIno, EntryName, TargetsDistinct, TargetsLive;
    forall i: nat, q: nat
      ensures Target(r, i, q) == Target(s, i, q) && NameOf(r, i, q) == NameOf(s, i, q)
    {
    }
    forall i: nat, q: nat | i < MAX_INODES && r.inodes[i].kind == DIR && Used(r, i, q) ensures 0 in SlotName(r, i, q) {
      assert SlotName(s, i, q) == SlotName(r, i, q);
    }
    TargetsCarry(s, r);
  }

  lemma NewInodeFiles(s: Fs, r: Fs, ni: nat)
    requires Shape(s) && Shape(r) && Dirs(s) && Dirs(r) && 0 < ni < MAX_INODES && s.inodes[ni].kind == FREE
    requires r.data == s.data && (forall i: nat, k: nat :: Ptr(r.inodes, i, k) == Ptr(s.inodes, i, k))
    requires forall i: nat | i < MAX_INODES && i != ni :: r.inodes[i] == s.inodes[i]
    requires r.inodes[ni].size == 0 && forall k: nat :: Ptr(r.inodes, ni, k) == 0
    ensures FilesKept(s, r, 0) && (TailsClean(s) ==> TailsClean(r)) && (FilesWhole(s) ==> FilesWhole(r))
  {
    NoInodeZero(s);
    NoInodeZero(r);
    hide Dirs;
    forall j: nat | LiveFile(s, j) ensures SameFile(s, r, j) {}
    assert HoleFree(r, ni) && CleanTail(r, ni);
    hide HoleFree, CleanTail;
    KeptFiles(s, r, ni);
  }

  /** A new entry for an untargeted live inode keeps the directory invariant. */
  lemma EnteredDirs(s: Fs, r: Fs, di: nat, q: nat, child: nat, name: seq<byte>)
    requires Inv(s) && OpenDir(r, di) && OnlyDir(s, r, di) && Entered(s, r, di, q, child, name) && LiveDir(s, di)
    requires ROOT < child < MAX_INODES && child != di && s.inodes[child].kind != FREE
    requires forall i: nat, p: nat :: Target(s, i, p) != child
    ensures Inv(r) && FilesKept(s, r, 0) && (FilesWhole(s) ==> FilesWhole(r))
  {
    hide Target, NameOf, Own, EntryIno, NamesTerminated;
    assert forall i: nat | i < MAX_INODES :: r.inodes[i].kind == s.inodes[i].kind;
    assert TargetsLive(r) && TargetsDistinct(r);
    forall i: nat | i < MAX_INODES && r.inodes[i].kind == DIR ensures Prefix(r.inodes, i) {
      if i != di {
        assert forall k: nat :: Ptr(r.inodes, i, k) == Ptr(s.inodes, i, k);
      }
    }
    OnlyDirFiles(s, r, di);
  }

  lemma OnlyDirFiles(s: Fs, r: Fs, di: nat)
    requires Shape(s) && Shape(r) && LiveDir(s, di) && OnlyDir(s, r, di)
    requires s.inodes[0].kind == FREE && r.inodes[0].kind == FREE
    ensures FilesKept(s, r, 0) && (TailsClean(s) ==> TailsClean(r)) && (FilesWhole(s) ==> FilesWhole(r))
  {
    assert forall i: nat | i < MAX_INODES && i != di :: r.inodes[i] == s.inodes[i];
    assert OtherFilesKept(s, r, di);
    forall j: nat | LiveFile(s, j) ensures SameFile(s, r, j) { OtherFileSame(s, r, di, j); }
    hide OnlyDir, OtherFilesKept, SameFile;
    KeptFiles(s, r, 0);
  }

  lemma SyncInv(s: Fs)
    requires Inv(s)
    ensures Inv(Sync(s)) && SameEntries(s, Sync(s)) && FilesKept(s, Sync(s), 0) && (FilesWhole(s) ==> FilesWhole(Sync(s)))
  {
    SyncKeeps(s);
    SyncOwn(s);
    var r := Sync(s);
    hide Own, Sync, OwnTable, CleanTail, HoleFree;
    NoInodeZero(s);
    assert OtherFilesKept(s, r, 0);
    OtherDirsKept(s, r, 0);
    hide Dirs;
    forall j: nat | LiveFile(s, j) ensures SameFile(s, r, j) { OtherFileSame(s, r, 0, j); }
    KeptFiles(s, r, 0);
  }

  /** The inode that create and mkdir fill in. */
  function NewChild(s: Fs): int
    requires |s.inodes| == MAX_INODES
  {
    FirstFreeInode(s.inodes, 1)
  }

  /** The blocks that a new entry in the directory costs. */
  ghost function BlockFor(s: Fs, di: nat): nat
    requires Shape(s) && di < MAX_INODES
  {
    if HasRoom(s, di) && !HasSlot(s, di) then 1 else 0
  }

  /** dir_add_entry for a fresh inode. */
  lemma AddChild(s: Fs, di: nat, ni: nat, name: seq<byte>)
    requires Inv(s) && LiveDir(s, di) && 0 !in name
    requires ROOT < ni < MAX_INODES && ni != di && s.inodes[ni].kind != FREE
    requires forall i: nat, p: nat :: Target(s, i, p) != ni
    ensures var r := AddEntry(s, di, ni, name, 0).0;
            && Inv(r) && FilesKept(s, r, 0) && (FilesWhole(s) ==> FilesWhole(r)) && SameNodes(s, r)
            && (if HasRoom(s, di) then exists q: nat :: Entered(s, r, di, q, ni, name) else r == s)
            && r.sb == s.sb.(freeBlocks := s.sb.freeBlocks - BlockFor(s, di))
  {
    hide HasSlot, AddEntry, HasRoom, Own, TargetsLive, TargetsDistinct, Entered, Target, NameOf;
    AddEntryEnters(s, di, ni, name, 0);
    var r := AddEntry(s, di, ni, name, 0).0;
    if HasRoom(s, di) {
      var q: nat :| Entered(s, r, di, q, ni, name);
      EnteredDirs(s, r, di, q, ni, name);
    }
  }

  /** Inodes agree on everything but their pointers. */
  ghost predicate SameNodes(s: Fs, r: Fs) {
    && |r.inodes| == |s.inodes|
    && forall i: nat | i < |s.inodes| :: r.inodes[i] == s.inodes[i].(blocks := r.inodes[i].blocks)
  }

  lemma FilesChain(s: Fs, t: Fs, r: Fs)
    requires Shape(s) && Shape(t) && Shape(r)
    requires FilesKept(s, t, 0) && FilesKept(t, r, 0)
    ensures FilesKept(s, r, 0)
  {
    forall j: nat | LiveFile(s, j) && j != 0 ensures LiveFile(r, j) && SameFile(s, r, j) {
      SameFileTrans(s, t, r, j);
    }
  }

  lemma SameFileTrans(s: Fs, t: Fs, r: Fs, j: nat)
    requires Shape(s) && Shape(t) && Shape(r) && j < MAX_INODES && SameFile(s, t, j) && SameFile(t, r, j)
    ensures SameFile(s, r, j)
  {
    assert forall l: nat :: Ptr(t.inodes, j, l) == Ptr(s.inodes, j, l);
  }

  /** The state in which create and mkdir have filled in the new inode. */
  ghost function WithChild(s: Fs, name: seq<byte>, kind: byte, perm: nat): (r: Fs)
    requires Shape(s) && NewChild(s) >= 0 && perm < U16
    ensures Shape(r)
  {
    var ni := NewChild(s);
    var node := s.inodes[ni].(kind := kind, perm := perm, size := 0, name := CopyStr(s.inodes[ni].name, name));
    s.(inodes := PutNode(s.inodes, ni, node), sb := s.sb.(freeInodes := Dec(s.sb.freeInodes)),
       sbDirty := true, inodesDirty := true)
  }

  lemma MakeSteps(s: Fs, di: nat, name: seq<byte>, kind: byte, perm: nat)
    requires Shape(s) && di < MAX_INODES && perm < U16
    ensures Make(s, di, name, kind, perm) ==
            if NewChild(s) < 0 then (s, -1)
            else (Sync(AddEntry(WithChild(s, name, kind, perm), di, NewChild(s), name, 0).0), 0)
  {
  }

  /** bfs_create and bfs_mkdir: with a free inode, a fresh empty file or directory appears; its name
      is entered exactly when the parent directory has room, and nothing else changes. */
  lemma MakeRefines(s: Fs, di: nat, name: seq<byte>, kind: byte, perm: nat)
    requires Inv(s) && LiveDir(s, di) && 0 !in name && kind in {FILE, DIR} && perm < U16
    ensures var (r, rc) := Make(s, di, name, kind, perm);
            var ni := NewChild(s);
            if ni < 0 then rc == -1 && r == s
            else
              && rc == 0 && Inv(r) && FilesKept(s, r, 0) && (FilesWhole(s) ==> FilesWhole(r)) && SameNodes(WithChild(s, name, kind, perm), r)
              && (if HasRoom(s, di) then exists q: nat :: Entered(s, r, di, q, ni, name) else SameEntries(s, r))
  {
    hide Make, Own, AddEntry, Sync, Target, NameOf, Taken;
    MakeSteps(s, di, name, kind, perm);
    var ni := NewChild(s);
    if ni >= 0 {
      var t := WithChild(s, name, kind, perm);
      NewInode(s, ni, t.inodes[ni]);
      AddChild(t, di, ni, name);
      var u := AddEntry(t, di, ni, name, 0).0;
      SyncInv(u);
      SyncKeeps(u);
      hide Inv, Dirs, FilesKept;
      FilesChain(s, t, u);
      FilesChain(s, u, Sync(u));
      RoomSame(s, t, di);
      if HasRoom(s, di) {
        var q: nat :| Entered(t, u, di, q, ni, name);
        assert Entered(s, Sync(u), di, q, ni, name);
      }
    }
  }

  /** They cost one inode, and a block only when the directory has no empty slot. */
  lemma MakeCounts(s: Fs, di: nat, name: seq<byte>, kind: byte, perm: nat)
    requires Inv(s) && LiveDir(s, di) && 0 !in name && kind in {FILE, DIR} && perm < U16 && NewChild(s) >= 0
    ensures s.sb.freeInodes > 0 && s.sb.freeBlocks >= BlockFor(s, di)
    ensures Make(s, di, name, kind, perm).0.sb ==
            s.sb.(freeInodes := s.sb.freeInodes - 1, freeBlocks := s.sb.freeBlocks - BlockFor(s, di))
  {
    hide Make, Own, AddEntry, Sync, Target, NameOf, Taken, HasRoom, HasSlot;
    MakeSteps(s, di, name, kind, perm);
    var ni := NewChild(s);
    var t := WithChild(s, name, kind, perm);
    NewInode(s, ni, t.inodes[ni]);
    AddChild(t, di, ni, name);
    SyncKeeps(AddEntry(t, di, ni, name, 0).0);
    RoomSame(s, t, di);
    hide Inv, Dirs, FilesKept;
  }

  lemma RoomSame(s: Fs, t: Fs, di: nat)
    requires Shape(s) && Shape(t) && di < MAX_INODES && t.data == s.data && t.sb.freeBlocks == s.sb.freeBlocks
    requires forall k: nat :: Ptr(t.inodes, di, k) == Ptr(s.inodes, di, k)
    ensures (HasRoom(t, di) <==> HasRoom(s, di)) && (HasSlot(t, di) <==> HasSlot(s, di))
  {
    assert forall q: nat :: Used(t, di, q) <==> Used(s, di, q);
    assert forall q: nat | Used(s, di, q) :: SlotIno(t, di, q) == SlotIno(s, di, q);
  }
}

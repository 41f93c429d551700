/** bfs_unlink on the abstract volume. */
module StackFsUnlink {
  import opened Bytes
  import opened StackFsLayout
  import opened StackFs
  import opened StackFsInvariant
  import opened StackFsFiles
  import opened StackFsDirs
  import opened StackFsDirOps
  import opened StackFsVolume

  /** r is s without entry q of directory di and without the entries of the inode it targeted. */
  ghost predicate Removed(s: Fs, r: Fs, di: nat, q: nat, ci: nat)
    requires Shape(s) && Shape(r)
  {
    && Target(s, di, q) == ci && NameOf(r, di, q) == []
    && (forall i: nat, p: nat :: Target(r, i, p) == if (i == di && p == q) || i == ci then 0 else Target(s, i, p))
    && (forall i: nat, p: nat | Target(r, i, p) != 0 :: NameOf(r, i, p) == NameOf(s, i, p))
  }

  /** The entry numbers bfs_unlink indexes the inode table with are in range. */
  lemma EntriesInRange(s: Fs, di: nat)
    requires Shape(s) && Dirs(s) && LiveDir(s, di)
    ensures forall q | 0 <= q < MAX_SLOTS && Used(s, di, q) :: SlotIno(s, di, q) < MAX_INODES
  {
    forall q | 0 <= q < MAX_SLOTS && Used(s, di, q) ensures SlotIno(s, di, q) < MAX_INODES {
      assert Target(s, di, q) == SlotIno(s, di, q);
    }
  }

  /** The state of bfs_unlink just before its sync: child released, entry cleared. */
  ghost function Unlinked(s: Fs, di: nat, q: nat): (r: Fs)
    requires Shape(s) && di < MAX_INODES && Used(s, di, q) && SlotIno(s, di, q) < MAX_INODES
    ensures Shape(r)
  {
    var image, e := s.data[Ptr(s.inodes, di, q / PER_BLOCK)], q % PER_BLOCK;
    var s1 := Release(s, SlotIno(s, di, q));
    s1.(data := s1.data[Ptr(s1.inodes, di, q / PER_BLOCK) := PutEntry(image, e, 0, [0] + EntryName(image, e)[1..])])
  }

  lemma UnlinkSteps(s: Fs, di: nat, name: seq<byte>)
    requires Shape(s) && di < MAX_INODES
    requires forall q | 0 <= q < MAX_SLOTS && Used(s, di, q) :: SlotIno(s, di, q) < MAX_INODES
    ensures var q := FindSlot(s, di, name, 0);
            Unlink(s, di, name) == if q == MAX_SLOTS then (s, -1) else (Sync(Unlinked(s, di, q)), 0)
  {
  }

  /** Clearing the entry and the child's inode removes exactly those slots. */
  lemma RemovedSlots(s: Fs, r: Fs, di: nat, q: nat, ci: nat)
    requires Shape(s) && Shape(r) && PtrsDistinct(s.inodes) && Dirs(s) && LiveDir(s, di)
    requires ci == Target(s, di, q) != 0
    requires r.inodes == ClearNode(s.inodes, ci)
    requires var b, e := Ptr(s.inodes, di, q / PER_BLOCK), q % PER_BLOCK;
             r.data == s.data[b := PutEntry(s.data[b], e, 0, [0] + EntryName(s.data[b], e)[1..])]
    ensures Removed(s, r, di, q, ci) && NamesTerminated(r)
  {
    hide PutEntry, EntryIno, EntryName, CStr, TargetsDistinct;
    assert TargetsLive(s);
    assert r.inodes[ci].kind == FREE && forall i: nat | i < MAX_INODES && i != ci :: r.inodes[i] == s.inodes[i];
    var b, e := Ptr(s.inodes, di, q / PER_BLOCK), q % PER_BLOCK;
    var field := [0] + EntryName(s.data[b], e)[1..];
    assert field[0] == 0;
    forall i: nat, p: nat | i < MAX_INODES && i != ci && s.inodes[i].kind == DIR && Used(s, i, p)
      ensures Used(r, i, p) && SlotIno(r, i, p) == if i == di && p == q then 0 else SlotIno(s, i, p)
      ensures SlotName(r, i, p) == if i == di && p == q then field else SlotName(s, i, p)
    {
      PutEntryReads(s.data[b], e, 0, field, p % PER_BLOCK);
    }
  }

  lemma RemovedDirs(s: Fs, r: Fs, di: nat, q: nat, ci: nat)
    requires Shape(s) && Shape(r) && Dirs(s) && LiveDir(s, di) && NamesTerminated(r)
    requires ci == Target(s, di, q) != 0 && ci < MAX_INODES && Removed(s, r, di, q, ci)
    requires r.inodes == ClearNode(s.inodes, ci)
    ensures Dirs(r)
  {
    hide Target, NameOf, NamesTerminated;
    assert ROOT < ci && ci != 0;
    assert TargetsLive(r);
    assert TargetsDistinct(r);
    forall i: nat | i < MAX_INODES && r.inodes[i].kind == DIR ensures Prefix(r.inodes, i) {
      assert i != ci;
      assert forall k: nat :: Ptr(r.inodes, i, k) == Ptr(s.inodes, i, k);
    }
  }

  lemma RemovedFiles(s: Fs, r: Fs, di: nat, k: nat, ci: nat)
    requires Shape(s) && Shape(r) && PtrsDistinct(s.inodes) && LiveDir(s, di) && 0 < ci < MAX_INODES
    requires s.inodes[0].kind == FREE
    requires Ptr(s.inodes, di, k) != 0 && r.inodes == ClearNode(s.inodes, ci) && |r.data| == |s.data|
    requires forall b: nat | b < |s.data| && b != Ptr(s.inodes, di, k) :: r.data[b] == s.data[b]
    ensures FilesKept(s, r, ci) && (TailsClean(s) ==> TailsClean(r)) && (FilesWhole(s) ==> FilesWhole(r))
  {
    forall j: nat | LiveFile(s, j) && j != ci ensures LiveFile(r, j) && SameFile(s, r, j) {
      assert r.inodes[j] == s.inodes[j];
      assert forall l: nat | Ptr(s.inodes, j, l) != 0 :: Ptr(s.inodes, j, l) != Ptr(s.inodes, di, k);
    }
    assert forall j: nat | LiveFile(r, j) :: LiveFile(s, j) && j != ci;
    hide SameFile, CleanTail, HoleFree;
    KeptFiles(s, r, ci);
  }

  /** bfs_unlink: with no entry of that name nothing happens; otherwise the first such entry is
      removed, its inode and all its blocks are given back, and every other entry (outside the removed
      inode) and every other file stays. */
  lemma UnlinkRefines(s: Fs, di: nat, name: seq<byte>)
    requires Inv(s) && LiveDir(s, di)
    ensures forall q | 0 <= q < MAX_SLOTS && Used(s, di, q) :: SlotIno(s, di, q) < MAX_INODES
    ensures var (r, rc) := Unlink(s, di, name);
            if NoMatch(s, di, name) then rc == -1 && r == s
            else
              && rc == 0 && Inv(r) && (FilesWhole(s) ==> FilesWhole(r))
              && exists q: nat :: FirstMatch(s, di, name, q) && UnlinkEffect(s, r, di, q, Target(s, di, q))
  {
    hide Target, NameOf, Own, Used, SlotIno, FindSlot, Sync, Unlink;
    EntriesInRange(s, di);
    UnlinkSteps(s, di, name);
    ScanIsComplete(s, di, name);
    var q := FindSlot(s, di, name, 0);
    if q < MAX_SLOTS {
      TargetOfMatch(s, di, q);
      UnlinkedRefines(s, di, q);
      var u := Unlinked(s, di, q);
      SyncInv(u);
      SyncKeeps(u);
      EffectThenSync(s, u, Sync(u), di, q, Target(s, di, q));
    }
  }

  lemma TargetOfMatch(s: Fs, di: nat, q: nat)
    requires Shape(s) && LiveDir(s, di) && Target(s, di, q) != 0
    ensures di < MAX_INODES && Used(s, di, q) && SlotIno(s, di, q) == Target(s, di, q)
  {
  }

  ghost predicate UnlinkEffect(s: Fs, r: Fs, di: nat, q: nat, ci: nat)
    requires Shape(s) && Shape(r)
  {
    && 0 < ci < MAX_INODES && Removed(s, r, di, q, ci) && FilesKept(s, r, ci)
    && r.inodes == s.inodes[ci := ZeroInode()]
    && r.sb == s.sb.(freeBlocks := r.sb.freeBlocks, freeInodes := s.sb.freeInodes + 1)
  }

  lemma UnlinkedRefines(s: Fs, di: nat, q: nat)
    requires Inv(s) && LiveDir(s, di) && Target(s, di, q) != 0
    requires Used(s, di, q) && SlotIno(s, di, q) == Target(s, di, q)
    ensures SlotIno(s, di, q) < MAX_INODES
    ensures Inv(Unlinked(s, di, q)) && UnlinkEffect(s, Unlinked(s, di, q), di, q, Target(s, di, q))
    ensures FilesWhole(s) ==> FilesWhole(Unlinked(s, di, q))
  {
    hide CStr, PutEntry, EntryName, EntryIno, OwnTable, CountFree, CountFreeInodes;
    var ci := Target(s, di, q);
    var b := Ptr(s.inodes, di, q / PER_BLOCK);
    assert ROOT < ci < MAX_INODES && ci != di && s.inodes[ci].kind != FREE by { assert TargetsLive(s); }
    ReleaseKeeps(s, ci);
    var u := Unlinked(s, di, q);
    DistinctOf(s);
    hide Release, Target, Own;
    assert u.inodes == ClearNode(s.inodes, ci);
    RemovedSlots(s, u, di, q, ci);
    RemovedDirs(s, u, di, q, ci);
    RemovedFiles(s, u, di, q / PER_BLOCK, ci);
    PutBlockKeepsOwn(Release(s, ci), b, u.data[b]);
  }

  lemma DistinctOf(s: Fs)
    requires Shape(s) && Own(s)
    ensures PtrsDistinct(s.inodes)
  {
  }

  lemma EffectThenSync(s: Fs, u: Fs, r: Fs, di: nat, q: nat, ci: nat)
    requires Shape(s) && Shape(u) && Shape(r)
    requires UnlinkEffect(s, u, di, q, ci) && SameEntries(u, r) && FilesKept(u, r, 0)
    requires (r.inodes, r.sb) == (u.inodes, u.sb)
    ensures UnlinkEffect(s, r, di, q, ci)
  {
    hide Target, NameOf;
    forall j: nat | LiveFile(s, j) && j != ci ensures LiveFile(r, j) && SameFile(s, r, j) {
      SameFileTrans(s, u, r, j);
    }
  }
}

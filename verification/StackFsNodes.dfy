/** What callers of StackFS get to see: create makes files and mkdir directories, the node of a lookup
    describes what was found, and a file goes from format through create, write and a new mount. */
module StackFsNodes {
  import opened Bytes
  import opened StackFsLayout
  import opened StackFs
  import opened StackFsInvariant
  import opened StackFsFiles
  import opened StackFsDirs
  import opened StackFsDirOps
  import opened StackFsVolume
  import opened StackFsUnlink
  import opened StackFsRemount
  import opened StackFsRuns

  /** Permission bits written as three octal digits. */
  function Octal(user: nat, group: nat, others: nat): nat { 64 * user + 8 * group + others }

  // ---------------------------------------------------------------- what create and mkdir make

  lemma MadeNode(s: Fs, di: nat, name: seq<byte>, kind: byte, perm: nat)
    requires Good(s) && LiveDir(s, di) && 0 !in name && kind in {FILE, DIR} && perm < U16 && NewChild(s) >= 0
    ensures var (r, rc), ni := Make(s, di, name, kind, perm), NewChild(s);
            && rc == 0 && Inv(r) && |r.inodes| == |s.inodes|
            && r.inodes[ni] == s.inodes[ni].(kind := kind, perm := perm, size := 0, blocks := r.inodes[ni].blocks, name := r.inodes[ni].name)
            && CStr(r.inodes[ni].name) == Stored(name)
            && (forall i: nat | i < MAX_INODES && i != ni :: r.inodes[i] == s.inodes[i].(blocks := r.inodes[i].blocks))
            && forall q: nat :: Target(r, ni, q) == 0
  {
    hide Make, HasRoom, FilesKept, Own, FilesWhole, TailsClean, Target, NameOf, CStr, CopyStr, Dirs, Finddir, InSync;
    CopyStrReads(s.inodes[NewChild(s)].name, name);
    NoEntries(s, NewChild(s));
    if Inv(s) { MakeRefines(s, di, name, kind, perm); } else { FirstMakeIsLost(s, di, name, kind, perm, di, name); }
  }

  lemma NoEntries(s: Fs, i: nat)
    requires Shape(s) && i < MAX_INODES && s.inodes[i].kind != DIR
    ensures forall q: nat :: Target(s, i, q) == 0
  {}

  lemma GoodShape(s: Fs)
    requires Good(s)
    ensures Shape(s) && s.inodes[0].kind == FREE
  {}

  /** bfs_create makes an empty file with mode 0644 in the inode it takes. */
  lemma CreateMakesFile(s: Fs, di: nat, name: seq<byte>)
    requires Good(s) && LiveDir(s, di) && 0 !in name && NewChild(s) >= 0
    ensures var (r, rc), ni := Create(s, di, name), NewChild(s);
            && rc == 0 && Inv(r) && !LiveFile(s, ni) && LiveFile(r, ni) && File(r, ni) == []
            && r.inodes[ni].perm == Octal(6, 4, 4) && CStr(r.inodes[ni].name) == Stored(name)
            && forall i: nat | i != ni :: (LiveFile(r, i) <==> LiveFile(s, i)) && (LiveDir(r, i) <==> LiveDir(s, i))
  {
    hide Make, Inv, Virgin, Target;
    GoodShape(s);
    MadeNode(s, di, name, FILE, Octal(6, 4, 4));
    GoodShape(Create(s, di, name).0);
  }

  /** bfs_mkdir makes a directory with mode 0755, in which no lookup finds anything. */
  lemma MkdirMakesDirectory(s: Fs, di: nat, name: seq<byte>)
    requires Good(s) && LiveDir(s, di) && 0 !in name && NewChild(s) >= 0
    ensures var (r, rc), ni := Mkdir(s, di, name), NewChild(s);
            && rc == 0 && Inv(r) && !LiveDir(s, ni) && LiveDir(r, ni) && r.inodes[ni].size == 0
            && r.inodes[ni].perm == Octal(7, 5, 5) && CStr(r.inodes[ni].name) == Stored(name)
            && (forall nm :: Finddir(r, ni, nm) == 0)
            && forall i: nat | i != ni :: (LiveFile(r, i) <==> LiveFile(s, i)) && (LiveDir(r, i) <==> LiveDir(s, i))
  {
    hide Make, Virgin, Target, Finddir, Own, TailsClean, TargetsLive, TargetsDistinct, NamesTerminated;
    GoodShape(s);
    MadeNode(s, di, name, DIR, Octal(7, 5, 5));
    var r := Mkdir(s, di, name).0;
    forall nm ensures Finddir(r, NewChild(s), nm) == 0 { FinddirMisses(r, NewChild(s), nm); }
  }

  // ---------------------------------------------------------------- what a lookup shows

  /** bfs_finddir gives no node exactly when no entry has the name or the heap is full; otherwise the node of
      the first such entry, with the kind, the length and the name of what it found. */
  lemma NodeDescribes(s: Fs, di: nat, name: seq<byte>, heapFull: bool)
    requires Inv(s) && LiveDir(s, di) && name != []
    ensures FindNode(s, di, name, heapFull).None? <==> heapFull || NoMatch(s, di, name)
    ensures FindNode(s, di, name, heapFull).Some? ==>
              var node := FindNode(s, di, name, heapFull).value;
              var ci := node.inode;
              && 0 < ci < MAX_INODES && (exists q: nat :: FirstMatch(s, di, name, q) && Target(s, di, q) == ci)
              && (node.isDir <==> LiveDir(s, ci)) && (LiveFile(s, ci) ==> node.size == |File(s, ci)|)
              && CStr(node.name) == CStr(s.inodes[ci].name)
  {
    hide Target, NameOf, Own, TailsClean, Finddir, CStr, CopyStr, TargetsDistinct, NamesTerminated;
    ScanIsComplete(s, di, name);
    if NoMatch(s, di, name) {
      FinddirMisses(s, di, name);
    } else {
      var q := FindSlot(s, di, name, 0);
      FinddirFinds(s, di, name, q);
      var ci := Target(s, di, q);
      assert 0 < ci < MAX_INODES by { assert TargetsLive(s); }
      FieldHolds(s, ci);
    }
  }

  /** bfs_read and bfs_write fail with -1, and write changes nothing, exactly for inode numbers that name no
      live file; in an inode that is no live directory no lookup finds anything. */
  lemma WrongKinds(s: Fs, ino: int, offset: nat, n: nat, buf: seq<byte>, name: seq<byte>)
    requires Inv(s) && offset < U32
    ensures Read(s, ino, offset, n).0 == -1 <==> ino < 0 || !LiveFile(s, ino)
    ensures Write(s, ino, offset, buf).1 == -1 <==> ino < 0 || !LiveFile(s, ino)
    ensures ino < 0 || !LiveFile(s, ino) ==> Read(s, ino, offset, n).1 == [] && Write(s, ino, offset, buf).0 == s
    ensures ino < 0 || !LiveDir(s, ino) ==> FindNode(s, ino, name, false).None?
  {
    assert s.inodes[0].kind == FREE;
    hide ReadFrom, WriteFrom, Sync, Extend, Own, Dirs, TailsClean, FindSlot;
  }

  /** A stored name fits the name field of a node. */
  lemma FieldHolds(s: Fs, ci: nat)
    requires Shape(s) && ci < MAX_INODES
    ensures CStr(CopyStr(Zeros(128), CStr(s.inodes[ci].name))) == CStr(s.inodes[ci].name)
  {
    var name := CStr(s.inodes[ci].name);
    assert InodeFits(s.inodes[ci]);
    CopyStrReads(Zeros(128), name);
    assert name[..|name|] == name;
  }

  /** After a write the node found is the same but for its size, which is that of the new contents. */
  lemma WriteShows(s: Fs, di: nat, name: seq<byte>, offset: nat, buf: seq<byte>)
    requires Inv(s) && LiveDir(s, di) && name != [] && offset < U32 && FindNode(s, di, name, false).Some?
    requires LiveFile(s, FindNode(s, di, name, false).value.inode)
    ensures var node := FindNode(s, di, name, false).value;
            var (r, done) := Write(s, node.inode, offset, buf);
            && done >= 0 && r.inodes[node.inode].perm == s.inodes[node.inode].perm
            && FindNode(r, di, name, false) == Some(node.(size := |Overwrite(File(s, node.inode), offset, buf[..done])|))
  {
    hide Target, NameOf, Own, TailsClean, Finddir, CStr, CopyStr, TargetsDistinct, NamesTerminated, Write, Reach, Overwrite, Cell;
    var ino := FindNode(s, di, name, false).value.inode;
    WriteRefines(s, ino, offset, buf);
    var r := Write(s, ino, offset, buf).0;
    assert r.inodes[di].kind == s.inodes[di].kind;
    SameEntriesLookup(s, r, di, name);
  }

  // ---------------------------------------------------------------- names and kinds over every run

  /** Every inode is free, a file or a directory, and bears the name under which it is entered. */
  ghost predicate Named(s: Fs)
    requires Shape(s)
  {
    && (forall i: nat | i < MAX_INODES :: s.inodes[i].kind in {FREE, FILE, DIR})
    && forall i: nat, q: nat | 0 < Target(s, i, q) < MAX_INODES :: CStr(s.inodes[Target(s, i, q)].name) == NameOf(s, i, q)
  }

  lemma MakeNames(s: Fs, di: nat, name: seq<byte>, kind: byte, perm: nat)
    requires Inv(s) && Named(s) && LiveDir(s, di) && 0 !in name && kind in {FILE, DIR} && perm < U16
    ensures Named(Make(s, di, name, kind, perm).0)
  {
    hide Make, HasRoom, FilesKept, Own, FilesWhole, TailsClean, Target, NameOf, CStr, CopyStr, TargetsDistinct, NamesTerminated;
    MakeRefines(s, di, name, kind, perm);
    if NewChild(s) >= 0 {
      MadeNode(s, di, name, kind, perm);
      assert forall i: nat, q: nat :: Target(s, i, q) != NewChild(s) by { assert TargetsLive(s); }
    }
  }

  lemma WriteNames(s: Fs, ino: nat, offset: nat, buf: seq<byte>)
    requires Inv(s) && Named(s) && LiveFile(s, ino) && offset < U32
    ensures Named(Write(s, ino, offset, buf).0)
  {
    hide Write, Reach, Overwrite, Cell, Own, Dirs, TailsClean, Target, NameOf, CStr;
    WriteRefines(s, ino, offset, buf);
  }

  lemma UnlinkNames(s: Fs, di: nat, name: seq<byte>)
    requires Inv(s) && Named(s) && LiveDir(s, di)
    ensures forall q | 0 <= q < MAX_SLOTS && Used(s, di, q) :: SlotIno(s, di, q) < MAX_INODES
    ensures Named(Unlink(s, di, name).0)
  {
    hide Unlink, FilesKept, Own, FilesWhole, TailsClean, Target, NameOf, Used, SlotIno, CStr, TargetsLive, NamesTerminated;
    EntriesInRange(s, di);
    UnlinkRefines(s, di, name);
    assert TargetsDistinct(s);
  }

  lemma {:induction false} StepNames(s: Fs, op: Op)
    requires Good(s) && Named(s) && Legal(s, op)
    ensures Good(Apply(s, op)) && Named(Apply(s, op))
  {
    hide Make, Write, Unlink, Named, Virgin, Inv, InSync, FilesWhole;
    GoodShape(s);
    GoodStep(s, op);
    if Inv(s) {
      match op
      case Creates(di, name) => MakeNames(s, di, name, FILE, 0x1A4);
      case Mkdirs(di, name) => MakeNames(s, di, name, DIR, 0x1ED);
      case Writes(ino, offset, buf) => WriteNames(s, ino, offset, buf);
      case Unlinks(di, name) => UnlinkNames(s, di, name);
    } else {
      FirstNames(s, op);
    }
  }

  lemma FirstNames(s: Fs, op: Op)
    requires Formatted(s) && Named(s) && Legal(s, op)
    ensures Shape(Apply(s, op)) && Named(Apply(s, op))
  {
    hide Make, Write, Unlink, InSync, FilesWhole, Target, NameOf, CStr, Finddir, Own, Dirs, TailsClean;
    VirginPointers(s);
    NoFileYet(s, op);
    assert s.inodes[2].kind == FREE;
    match op
    case Creates(di, name) => FirstMakeIsLost(s, di, name, FILE, 0x1A4, di, name);
    case Mkdirs(di, name) => FirstMakeIsLost(s, di, name, DIR, 0x1ED, di, name);
    case Writes(ino, offset, buf) => assert false;
    case Unlinks(di, name) => UnlinkMisses(s, di, name);
  }

  lemma FormattedNames(s: Fs)
    requires Formatted(s)
    ensures Named(s)
  {
    VirginPointers(s);
  }

  lemma {:induction false} RunNames(s: Fs, ops: seq<Op>)
    requires Good(s) && Named(s) && LegalRun(s, ops)
    ensures Good(Run(s, ops)) && Named(Run(s, ops))
    decreases |ops|
  {
    hide Inv, Apply, Legal, Virgin, Named;
    GoodShape(s);
    if ops != [] {
      StepNames(s, ops[0]);
      RunNames(Apply(s, ops[0]), ops[1..]);
    }
  }

  /** After any run from format on: what a lookup finds is a file or a directory, as the node says, and the
      node bears the name looked up. */
  lemma LookupsAreNamed(f: Fs, ops: seq<Op>, s: Fs, di: nat, name: seq<byte>)
    requires Formatted(f) && LegalRun(f, ops) && s == Run(f, ops) && Shape(s) && LiveDir(s, di) && name != []
    ensures FindNode(s, di, name, false).Some? ==>
              var node := FindNode(s, di, name, false).value;
              CStr(node.name) == name && (if node.isDir then LiveDir(s, node.inode) else LiveFile(s, node.inode))
  {
    hide Run, LegalRun, FindNode, CStr, Inv, Virgin, InSync, FilesWhole, Named, AlwaysInSync, SyncedRun, InsideRun;
    FormattedNames(f) by { GoodShape(f); }
    RunKeeps(f, ops);
    RunNames(f, ops);
    if s == f {
      NothingThere(f, di, name);
    } else if FindNode(s, di, name, false).Some? {
      NamedLookup(s, di, name);
    }
  }

  lemma NothingThere(f: Fs, di: nat, name: seq<byte>)
    requires Formatted(f) && LiveDir(f, di)
    ensures FindNode(f, di, name, false).None?
  {
    VirginPointers(f);
    hide Target, Finddir, Own;
    FinddirMisses(f, di, name);
  }

  lemma NamedLookup(s: Fs, di: nat, name: seq<byte>)
    requires Inv(s) && Named(s) && LiveDir(s, di) && name != [] && FindNode(s, di, name, false).Some?
    ensures var node := FindNode(s, di, name, false).value;
            CStr(node.name) == name && (if node.isDir then LiveDir(s, node.inode) else LiveFile(s, node.inode))
  {
    hide Own, TailsClean, Finddir, CStr, CopyStr, Target, NameOf, TargetsDistinct, NamesTerminated, FindNode;
    NodeDescribes(s, di, name, false);
    var node := FindNode(s, di, name, false).value;
    var q: nat :| FirstMatch(s, di, name, q) && Target(s, di, q) == node.inode;
    assert s.inodes[Target(s, di, q)].kind != FREE by { assert TargetsLive(s); }
  }

  // ---------------------------------------------------------------- from format to the file's bytes

  /** A fresh volume after its first mkdir in the root, which loses its name: two inodes and one block are
      taken, and the root is still empty. */
  lemma AfterFirstMkdir(before: Fs, sectors: nat, volume: seq<byte>, d: seq<byte>)
    requires DiskOf(sectors, before) && 0 !in d
    ensures var f := Format(before, sectors, volume);
            var m := Mkdir(f, ROOT, d).0;
            && Inv(m) && InSync(m) && FilesWhole(m) && LiveDir(m, ROOT) && NewChild(m) == 3
            && m.sb.freeBlocks == |before.data| - 1 && m.sb.magic == MAGIC
            && (forall nm :: NoMatch(m, ROOT, nm)) && !HasSlot(m, ROOT) && (HasRoom(m, ROOT) <==> |before.data| > 1)
  {
    hide Format, InSync, Make, FilesWhole, Own, Dirs, TailsClean, CStr, CopyStr, Target, NameOf, Finddir, HasSlot, HasRoom;
    FormatIsEmpty(before, sectors, volume);
    FormatIsGood(before, sectors, volume);
    FormatFields(before, sectors, volume);
    var f := Format(before, sectors, volume);
    assert f.inodes[2].kind == FREE && f.inodes[3].kind == FREE;
    VirginRoot(f);
    VirginPointers(f);
    FirstMakeIsLost(f, ROOT, d, DIR, 0x1ED, ROOT, d);
    var m := Mkdir(f, ROOT, d).0;
    assert NewChild(f) == 2 && m.inodes[ROOT] == f.inodes[ROOT] && m.inodes[3] == f.inodes[3] && m.inodes[2].kind == DIR;
    assert NewChild(m) == 3;
    SamePointers(f.inodes, m.inodes, ROOT);
    NoSlots(m, ROOT);
    forall nm ensures NoMatch(m, ROOT, nm) {}
  }

  lemma SamePointers(t: seq<Inode>, u: seq<Inode>, i: nat)
    requires i < |t| && i < |u| && u[i].blocks == t[i].blocks && forall k: nat :: Ptr(t, i, k) == 0
    ensures forall k: nat :: Ptr(u, i, k) == 0
  {
    forall k: nat ensures Ptr(u, i, k) == 0 { assert Ptr(t, i, k) == 0; }
  }

  lemma NoSlots(s: Fs, di: nat)
    requires Shape(s) && di < MAX_INODES && forall k: nat :: Ptr(s.inodes, di, k) == 0
    ensures !HasSlot(s, di) && (HasRoom(s, di) <==> s.sb.freeBlocks > 0)
  {
    assert Ptr(s.inodes, di, 0) == 0;
  }

  /** From format to a file: after a first mkdir, which the code needs, a file created in the root is found
      under its name; what is written to the node found is there to be read, its length is shown by the next
      lookup, and all of buf is stored but for what twelve blocks or the disk cannot hold. */
  lemma FileComesBack(before: Fs, sectors: nat, volume: seq<byte>, d: seq<byte>, name: seq<byte>, buf: seq<byte>)
    requires DiskOf(sectors, before) && 0 !in d && 0 !in name && Stored(name) != [] && |before.data| > 1 && |buf| < U32
    ensures var c := Create(Mkdir(Format(before, sectors, volume), ROOT, d).0, ROOT, name).0;
            && Inv(c) && InSync(c) && LiveFile(c, 3)
            && FindNode(c, ROOT, Stored(name), false).Some?
            && var node := FindNode(c, ROOT, Stored(name), false).value;
               && node.inode == 3 && !node.isDir && node.size == 0 && CStr(node.name) == Stored(name)
               && var (w, done) := Write(c, 3, 0, buf);
                  && done == Min(|buf|, BLOCK * Min(DIRECT, |before.data| - 2))
                  && Read(w, 3, 0, |buf|) == (done, buf[..done])
                  && FindNode(w, ROOT, Stored(name), false) == Some(node.(size := done))
                  && Inv(w) && InSync(w) && w.sb.magic == MAGIC
  {
    AfterFirstMkdir(before, sectors, volume, d);
    hide Format, InSync, Make, Write, Read, FindNode, FilesWhole, Inv, NoMatch, HasRoom, HasSlot, CStr;
    var m := Mkdir(Format(before, sectors, volume), ROOT, d).0;
    CreatedFile(m, name);
    WrittenFile(Create(m, ROOT, name).0, 3, name, buf);
  }

  lemma CreatedFile(m: Fs, name: seq<byte>)
    requires Inv(m) && InSync(m) && LiveDir(m, ROOT) && NewChild(m) == 3 && m.sb.freeBlocks > 0 && FilesWhole(m) && m.sb.magic == MAGIC
    requires 0 !in name && Stored(name) != [] && NoMatch(m, ROOT, Stored(name)) && HasRoom(m, ROOT) && !HasSlot(m, ROOT)
    ensures var c := Create(m, ROOT, name).0;
            && Inv(c) && InSync(c) && FilesWhole(c) && LiveDir(c, ROOT) && LiveFile(c, 3) && c.inodes[3].size == 0
            && c.sb.freeBlocks == m.sb.freeBlocks - 1 && c.sb.magic == MAGIC
            && FindNode(c, ROOT, Stored(name), false).Some?
            && var node := FindNode(c, ROOT, Stored(name), false).value;
               node.inode == 3 && !node.isDir && node.size == 0 && CStr(node.name) == Stored(name)
  {
    hide InSync, Make, Own, Dirs, TailsClean, FindNode, FilesWhole, NoMatch, HasRoom, HasSlot, CStr, Finddir, FilesKept, Target, NameOf, CopyStr;
    CreateMakesFile(m, ROOT, name);
    MakeCounts(m, ROOT, name, FILE, 0x1A4);
    MakeMagic(m, ROOT, name, FILE, 0x1A4);
    MakeKeepsSync(m, ROOT, name, FILE, 0x1A4);
    MakeRefines(m, ROOT, name, FILE, 0x1A4);
    CreatedNode(m, ROOT, name, FILE, 0x1A4);
  }

  lemma WrittenFile(c: Fs, ino: nat, name: seq<byte>, buf: seq<byte>)
    requires Inv(c) && InSync(c) && FilesWhole(c) && LiveDir(c, ROOT) && LiveFile(c, ino) && c.inodes[ino].size == 0 && c.sb.magic == MAGIC
    requires FindNode(c, ROOT, Stored(name), false).Some? && FindNode(c, ROOT, Stored(name), false).value.inode == ino
    requires name != [] && |buf| < U32
    ensures var (w, done) := Write(c, ino, 0, buf);
            && done == Min(|buf|, BLOCK * Min(DIRECT, c.sb.freeBlocks))
            && Read(w, ino, 0, |buf|) == (done, buf[..done]) && Inv(w) && InSync(w) && w.sb.magic == MAGIC
            && FindNode(w, ROOT, Stored(name), false) == Some(FindNode(c, ROOT, Stored(name), false).value.(size := done))
  {
    hide InSync, Write, Read, Own, Dirs, FindNode, Finddir, Target, NameOf, Cell, Reach, CStr, CleanTail;
    WriteRefines(c, ino, 0, buf);
    WriteKeepsWhole(c, ino, 0, buf);
    WriteKeepsSync(c, ino, 0, buf);
    var (w, done) := Write(c, ino, 0, buf);
    assert File(c, ino) == [];
    assert Overwrite([], 0, buf[..done]) == buf[..done];
    ReadIsSlice(w, ino, 0, |buf|);
    WriteShows(c, ROOT, Stored(name), 0, buf);
  }

  /** A volume that is mounted again from its disk, over whatever memory, answers every lookup and every read as
      it did before. */
  lemma MountedAgain(s: Fs, before: Fs, di: nat, name: seq<byte>, ino: nat)
    requires Inv(s) && InSync(s) && s.sb.magic == MAGIC && LiveDir(s, di) && ino < MAX_INODES
    requires before.meta == s.meta && before.data == s.data && SuperFits(before.sb)
    ensures var (r, ok) := Mount(before);
            ok && Inv(r) && InSync(r) && FindNode(r, di, name, false) == FindNode(s, di, name, false) && ReadsAlike(s, r, ino)
  {
    hide Mount, FindNode, Read, InSync;
    RemountIsIdentity(s, before);
    PaddingOnly(s, Mount(before).0);
    hide Inv;
    SameFileSameBytes(s, Mount(before).0, ino);
    SameNode(s, Mount(before).0, di, name);
  }

  /** r is s but for padding bytes of the superblock. */
  ghost predicate PadChanged(s: Fs, r: Fs) { |r.sb.pad| == 452 && r == s.(sb := s.sb.(pad := r.sb.pad)) }

  lemma PaddingOnly(s: Fs, r: Fs)
    requires Inv(s) && InSync(s) && PadChanged(s, r) && r.sb.pad[..448] == s.sb.pad[..448]
    ensures Inv(r) && InSync(r) && SameEntries(s, r)
    ensures forall i: nat | i < MAX_INODES :: SameFile(s, r, i)
  {
    PadFiles(s, r);
    PadDirs(s, r);
    hide Dirs, Own, TailsClean, CleanTail, Target, NameOf, PadChanged;
    PadSaved(s, r);
  }

  lemma PadFiles(s: Fs, r: Fs)
    requires Shape(s) && PadChanged(s, r)
    ensures Shape(r) && (forall i: nat | i < MAX_INODES :: SameFile(s, r, i))
    ensures (Own(s) ==> Own(r)) && (TailsClean(s) ==> TailsClean(r))
  {
    hide OwnTable, CountFree, CountFreeInodes;
    forall i: nat | i < MAX_INODES ensures SameFile(s, r, i) && (CleanTail(s, i) <==> CleanTail(r, i)) { SameFileSameBytes(s, r, i); }
    hide CleanTail, SameFile;
  }

  lemma PadDirs(s: Fs, r: Fs)
    requires Shape(s) && Shape(r) && Dirs(s) && PadChanged(s, r)
    ensures Dirs(r) && SameEntries(s, r)
  {
    hide SlotIno, SlotName, EntryIno, EntryName, TargetsLive, TargetsDistinct, Shape;
    forall i: nat, q: nat | i < MAX_INODES && Used(s, i, q) ensures SlotIno(r, i, q) == SlotIno(s, i, q) && SlotName(r, i, q) == SlotName(s, i, q) {
      SlotSame(s, r, i, q);
    }
    TargetsCarry(s, r);
  }

  lemma SlotSame(s: Fs, r: Fs, i: nat, q: nat)
    requires Shape(s) && Shape(r) && PadChanged(s, r) && i < MAX_INODES && Used(s, i, q)
    ensures SlotIno(r, i, q) == SlotIno(s, i, q) && SlotName(r, i, q) == SlotName(s, i, q)
  {}

  lemma PadSaved(s: Fs, r: Fs)
    requires Shape(r) && InSync(s) && PadChanged(s, r) && r.sb.pad[..448] == s.sb.pad[..448]
    ensures InSync(r)
  {
    hide PutTable, Cut;
  }

  lemma SameNode(s: Fs, r: Fs, di: nat, name: seq<byte>)
    requires Inv(s) && Inv(r) && SameEntries(s, r) && r.inodes == s.inodes && LiveDir(s, di)
    ensures FindNode(r, di, name, false) == FindNode(s, di, name, false)
  {
    hide Own, TailsClean, Target, NameOf, Finddir, CStr, CopyStr, TargetsDistinct, NamesTerminated, TargetsLive;
    SameEntriesLookup(s, r, di, name);
  }
}
/** StackFS as files and maps: the map laws of create, mkdir and unlink, the invariant over every
    run, and the block that a fresh volume loses. */
module StackFsRuns {
  import opened Bytes
  import opened StackFsLayout
  import opened StackFs
  import opened StackFsInvariant
  import opened StackFsFiles
  import opened StackFsDirs
  import opened StackFsDirOps
  import opened StackFsVolume
  import opened StackFsUnlink
  import opened StackFsRemount

  // ---------------------------------------------------------------- the map laws

  lemma EnteredLookup(s: Fs, r: Fs, di: nat, q: nat, child: nat, name: seq<byte>, j: nat, nm: seq<byte>)
    requires Shape(s) && Dirs(s) && Shape(r) && Dirs(r) && Entered(s, r, di, q, child, name)
    requires LiveDir(s, di) && LiveDir(r, di) && child > 0 && Stored(name) != [] && NoMatch(s, di, Stored(name))
    requires LiveDir(s, j) && LiveDir(r, j)
    ensures Finddir(r, j, nm) == if j == di && nm == Stored(name) then child else Finddir(s, j, nm)
  {
    hide Target, NameOf, TargetsLive, TargetsDistinct, NamesTerminated, Finddir;
    if j == di && nm == Stored(name) {
      assert FirstMatch(r, di, nm, q);
      FinddirFinds(r, di, nm, q);
    } else {
      SameLookups(s, r, j, nm);
    }
  }

  lemma SameEntriesLookup(s: Fs, r: Fs, j: nat, nm: seq<byte>)
    requires Shape(s) && Dirs(s) && Shape(r) && Dirs(r) && SameEntries(s, r) && LiveDir(s, j) && LiveDir(r, j)
    ensures Finddir(r, j, nm) == Finddir(s, j, nm)
  {
    hide Target, NameOf, TargetsLive, TargetsDistinct, NamesTerminated, Finddir;
    SameLookups(s, r, j, nm);
  }

  /** create and mkdir of a name that the directory does not hold yet insert it into the
      directory's map exactly when the directory has room; every other lookup in every directory
      gives what it gave before. */
  lemma MakeInsertsName(s: Fs, di: nat, name: seq<byte>, kind: byte, perm: nat)
    requires Inv(s) && LiveDir(s, di) && 0 !in name && kind in {FILE, DIR} && perm < U16
    requires NewChild(s) >= 0 && Stored(name) != [] && NoMatch(s, di, Stored(name))
    ensures var r := Make(s, di, name, kind, perm).0;
            && Finddir(r, di, Stored(name)) == (if HasRoom(s, di) then NewChild(s) else 0)
            && (forall j: nat, nm: seq<byte> | LiveDir(s, j) && (j != di || nm != Stored(name)) ::
                  Finddir(r, j, nm) == Finddir(s, j, nm))
  {
    hide Make, HasRoom, Finddir, FilesKept, Own, FilesWhole, TailsClean, Dirs, Target, NameOf;
    MakeRefines(s, di, name, kind, perm);
    var r := Make(s, di, name, kind, perm).0;
    var ni := NewChild(s);
    assert forall j: nat | LiveDir(s, j) :: LiveDir(r, j);
    if HasRoom(s, di) {
      var q: nat :| Entered(s, r, di, q, ni, name);
      forall j: nat, nm: seq<byte> | LiveDir(s, j)
        ensures Finddir(r, j, nm) == if j == di && nm == Stored(name) then ni else Finddir(s, j, nm)
      {
        EnteredLookup(s, r, di, q, ni, name, j, nm);
      }
    } else {
      FinddirMisses(s, di, Stored(name));
      forall j: nat, nm: seq<byte> | LiveDir(s, j) ensures Finddir(r, j, nm) == Finddir(s, j, nm) {
        SameEntriesLookup(s, r, j, nm);
      }
    }
  }

  /** The node found for a name just created carries that name and describes an empty file or directory. */
  lemma CreatedNode(s: Fs, di: nat, name: seq<byte>, kind: byte, perm: nat)
    requires Inv(s) && LiveDir(s, di) && 0 !in name && kind in {FILE, DIR} && perm < U16 && HasRoom(s, di)
    requires NewChild(s) >= 0 && Stored(name) != [] && NoMatch(s, di, Stored(name))
    ensures var node := FindNode(Make(s, di, name, kind, perm).0, di, Stored(name), false);
            && node.Some? && CStr(node.value.name) == Stored(name) && node.value.inode == NewChild(s)
            && node.value.size == 0 && (node.value.isDir <==> kind == DIR)
  {
    hide Make, HasRoom, Finddir, FilesKept, Own, FilesWhole, TailsClean, Target, NameOf, CStr, CopyStr, Dirs;
    MakeInsertsName(s, di, name, kind, perm);
    MakeRefines(s, di, name, kind, perm);
    var ni := NewChild(s);
    CopyStrReads(s.inodes[ni].name, name);
    CopyStrReads(Zeros(128), Stored(name));
    assert Stored(name)[..|Stored(name)|] == Stored(name);
  }

  /** At most one entry of the directory has this name. */
  ghost predicate NameUnique(s: Fs, di: nat, name: seq<byte>)
    requires Shape(s)
  {
    forall p: nat, q: nat | Target(s, di, p) != 0 && Target(s, di, q) != 0
      && NameOf(s, di, p) == name && NameOf(s, di, q) == name :: p == q
  }

  /** unlink removes just that name from the directory's map: no other name of this or any other
      surviving directory answers differently. */
  lemma UnlinkRemovesName(s: Fs, di: nat, name: seq<byte>, q: nat)
    requires Inv(s) && LiveDir(s, di) && FirstMatch(s, di, name, q) && NameUnique(s, di, name)
    ensures forall p | 0 <= p < MAX_SLOTS && Used(s, di, p) :: SlotIno(s, di, p) < MAX_INODES
    ensures var (r, rc) := Unlink(s, di, name);
            && rc == 0 && Finddir(r, di, name) == 0
            && (forall j: nat, nm: seq<byte> | LiveDir(s, j) && j != Target(s, di, q) && (j != di || nm != name) ::
                  Finddir(r, j, nm) == Finddir(s, j, nm))
  {
    hide Unlink, Finddir, FilesKept, Own, FilesWhole, TailsClean, Target, NameOf, Used, SlotIno;
    UnlinkRefines(s, di, name);
    var r := Unlink(s, di, name).0;
    var q' :| FirstMatch(s, di, name, q') && UnlinkEffect(s, r, di, q', Target(s, di, q'));
    FirstMatchUnique(s, di, name, q, q');
    var ci := Target(s, di, q);
    assert ci != di by { assert TargetsLive(s); }
    hide Dirs;
    FinddirMisses(r, di, name);
    forall j: nat, nm: seq<byte> | LiveDir(s, j) && j != ci && (j != di || nm != name)
      ensures Finddir(r, j, nm) == Finddir(s, j, nm)
    {
      SameLookups(s, r, j, nm);
    }
  }

  lemma SecondMatch(s: Fs, di: nat, name: seq<byte>, q: nat) returns (p: nat)
    requires Shape(s) && FirstMatch(s, di, name, q) && !NameUnique(s, di, name)
    ensures p != q && Target(s, di, p) != 0 && NameOf(s, di, p) == name
  {
    hide Target, NameOf;
    var a: nat, b: nat :| Target(s, di, a) != 0 && Target(s, di, b) != 0
      && NameOf(s, di, a) == name && NameOf(s, di, b) == name && a != b;
    p := if a == q then b else a;
  }

  lemma LookupOfPresent(s: Fs, i: nat, name: seq<byte>, p: nat)
    requires Inv(s) && LiveDir(s, i) && name != [] && Target(s, i, p) != 0 && NameOf(s, i, p) == name
    ensures Finddir(s, i, name) != 0
  {
    hide Target, NameOf, Own, TailsClean, Finddir, FindSlot, TargetsDistinct, TargetsLive, NamesTerminated;
    ScanIsComplete(s, i, name);
    FinddirFinds(s, i, name, FindSlot(s, i, name, 0));
  }

  /** create and mkdir do not look for duplicates, so a name may be there twice: after unlink it is
      gone exactly when it was there once. */
  lemma UnlinkHidesNameIff(s: Fs, di: nat, name: seq<byte>, q: nat)
    requires Inv(s) && LiveDir(s, di) && FirstMatch(s, di, name, q) && name != []
    ensures forall p | 0 <= p < MAX_SLOTS && Used(s, di, p) :: SlotIno(s, di, p) < MAX_INODES
    ensures Finddir(Unlink(s, di, name).0, di, name) == 0 <==> NameUnique(s, di, name)
  {
    hide Unlink, Finddir, FilesKept, Own, FilesWhole, TailsClean, Target, NameOf, Used, SlotIno, NameUnique, Dirs;
    UnlinkRefines(s, di, name);
    if NameUnique(s, di, name) {
      UnlinkRemovesName(s, di, name, q);
    } else {
      var r := Unlink(s, di, name).0;
      var q' :| FirstMatch(s, di, name, q') && UnlinkEffect(s, r, di, q', Target(s, di, q'));
      FirstMatchUnique(s, di, name, q, q');
      var p := SecondMatch(s, di, name, q);
      ParentStays(s, di, q);
      LookupOfPresent(r, di, name, p);
    }
  }

  lemma FoundAt(s: Fs, i: nat, name: seq<byte>) returns (q: nat)
    requires Inv(s) && LiveDir(s, i) && Finddir(s, i, name) != 0
    ensures FirstMatch(s, i, name, q)
  {
    hide Target, NameOf, Own, TailsClean, Finddir, FindSlot, TargetsDistinct, TargetsLive, NamesTerminated;
    ScanIsComplete(s, i, name);
    if NoMatch(s, i, name) { FinddirMisses(s, i, name); }
    q := FindSlot(s, i, name, 0);
  }

  lemma SecondEntry(s: Fs, r: Fs, di: nat, q: nat, child: nat, name: seq<byte>, p: nat)
    requires Shape(s) && Shape(r) && Entered(s, r, di, q, child, name) && child > 0
    requires FirstMatch(s, di, Stored(name), p)
    ensures FirstMatch(r, di, Stored(name), Min(p, q)) && !NameUnique(r, di, Stored(name))
  {
    hide Target, NameOf;
    assert Target(r, di, p) != 0 && Target(r, di, q) != 0 && p != q;
  }

  /** create or mkdir of a name that is already there makes a second entry, and one unlink leaves the
      name to be found. */
  lemma DuplicateStays(s: Fs, di: nat, name: seq<byte>, kind: byte, perm: nat)
    requires Inv(s) && LiveDir(s, di) && 0 !in name && kind in {FILE, DIR} && perm < U16 && name != []
    requires Finddir(s, di, Stored(name)) != 0 && HasRoom(s, di) && NewChild(s) >= 0
    ensures var r := Make(s, di, name, kind, perm).0;
            && Inv(r) && LiveDir(r, di) && !NameUnique(r, di, Stored(name))
            && (forall p | 0 <= p < MAX_SLOTS && Used(r, di, p) :: SlotIno(r, di, p) < MAX_INODES)
            && Finddir(Unlink(r, di, Stored(name)).0, di, Stored(name)) != 0
  {
    hide Make, HasRoom, Finddir, FilesKept, Own, FilesWhole, TailsClean, Target, NameOf, Used, SlotIno, NameUnique, Dirs, Unlink;
    MakeRefines(s, di, name, kind, perm);
    var p := FoundAt(s, di, Stored(name));
    var r := Make(s, di, name, kind, perm).0;
    var q: nat :| Entered(s, r, di, q, NewChild(s), name);
    SecondEntry(s, r, di, q, NewChild(s), name, p);
    UnlinkHidesNameIff(r, di, Stored(name), Min(p, q));
  }

  lemma ParentStays(s: Fs, di: nat, q: nat)
    requires Inv(s) && LiveDir(s, di) && Target(s, di, q) != 0
    ensures Target(s, di, q) != di
  {
    assert TargetsLive(s);
  }

  // ---------------------------------------------------------------- runs

  datatype Op =
    | Creates(di: nat, name: seq<byte>)
    | Mkdirs(di: nat, name: seq<byte>)
    | Writes(ino: nat, offset: nat, buf: seq<byte>)
    | Unlinks(di: nat, name: seq<byte>)

  /** The states a formatted volume can get into. */
  ghost predicate Good(s: Fs) { Inv(s) || Formatted(s) }

  /** The operation names a live directory or a live file; offsets are 32-bit. */
  ghost predicate Legal(s: Fs, op: Op) {
    match op
    case Creates(di, name) => LiveDir(s, di) && 0 !in name
    case Mkdirs(di, name) => LiveDir(s, di) && 0 !in name
    case Writes(ino, offset, buf) => LiveFile(s, ino) && offset < U32
    case Unlinks(di, name) => LiveDir(s, di)
  }

  /** The operation leaves the disk in step with memory: all do but a write that fills a hole without
      growing the file. */
  ghost predicate Synced(s: Fs, op: Op)
    requires Legal(s, op)
  {
    op.Writes? ==> Grows(s, op.ino, op.offset, |op.buf|) || !FillsHole(s, op.ino, op.offset, |op.buf|)
  }

  /** A write that starts inside its file or at the end. */
  ghost predicate Inside(s: Fs, op: Op)
    requires Legal(s, op)
  {
    op.Writes? ==> op.offset <= s.inodes[op.ino].size
  }

  lemma LookupsInRange(s: Fs, di: nat)
    requires Good(s) && LiveDir(s, di)
    ensures forall q | 0 <= q < MAX_SLOTS && Used(s, di, q) :: SlotIno(s, di, q) < MAX_INODES
  {
    EntriesInRange(s, di);
  }

  ghost function Apply(s: Fs, op: Op): (r: Fs)
    requires Good(s) && Legal(s, op)
  {
    match op
    case Creates(di, name) => Create(s, di, name).0
    case Mkdirs(di, name) => Mkdir(s, di, name).0
    case Writes(ino, offset, buf) => Write(s, ino, offset, buf).0
    case Unlinks(di, name) => LookupsInRange(s, di); Unlink(s, di, name).0
  }

  /** What every operation does to the properties of the whole volume. */
  ghost predicate Kept(s: Fs, r: Fs, synced: bool, inside: bool)
    requires Shape(s)
  {
    && Inv(r) && r.sb.magic == s.sb.magic
    && (InSync(s) ==> (InSync(r) <==> synced))
    && (FilesWhole(s) && inside ==> FilesWhole(r) && (InSync(s) ==> synced))
  }

  /** Every operation keeps the whole invariant, and the disk in step with memory exactly when it is no
      write that fills a hole without growing the file; writes inside files leave files without holes. */
  lemma StepKeeps(s: Fs, op: Op)
    requires Inv(s) && Legal(s, op)
    ensures Kept(s, Apply(s, op), Synced(s, op), Inside(s, op))
  {
    hide Make, Write, Unlink, Own, Dirs, TailsClean, FilesWhole, FilesKept, SameEntries, HasRoom, Reach, File, Overwrite, InSync;
    match op
    case Creates(di, name) =>
      MakeRefines(s, di, name, FILE, 0x1A4);
      if InSync(s) { MakeKeepsSync(s, di, name, FILE, 0x1A4); }
      MakeMagic(s, di, name, FILE, 0x1A4);
    case Mkdirs(di, name) =>
      MakeRefines(s, di, name, DIR, 0x1ED);
      if InSync(s) { MakeKeepsSync(s, di, name, DIR, 0x1ED); }
      MakeMagic(s, di, name, DIR, 0x1ED);
    case Writes(ino, offset, buf) =>
      WriteStep(s, ino, offset, buf);
    case Unlinks(di, name) =>
      EntriesInRange(s, di);
      UnlinkRefines(s, di, name);
      if InSync(s) { UnlinkKeepsSync(s, di, name); }
  }

  lemma WriteStep(s: Fs, ino: nat, offset: nat, buf: seq<byte>)
    requires Inv(s) && LiveFile(s, ino) && offset < U32
    ensures Kept(s, Write(s, ino, offset, buf).0, Grows(s, ino, offset, |buf|) || !FillsHole(s, ino, offset, |buf|),
                 offset <= s.inodes[ino].size)
  {
    hide Write, Own, Dirs, CleanTail, HoleFree, Reach, Overwrite, InSync, FillsHole, Cell, BlocksAdded;
    WriteRefines(s, ino, offset, buf);
    WriteOverwrites(s, ino, offset, buf);
    if InSync(s) { WriteInSyncIff(s, ino, offset, buf); }
    if FilesWhole(s) && offset <= s.inodes[ino].size && FillsHole(s, ino, offset, |buf|) {
      WholeWriteGrows(s, ino, offset, |buf|);
    }
  }

  lemma MakeMagic(s: Fs, di: nat, name: seq<byte>, kind: byte, perm: nat)
    requires Inv(s) && LiveDir(s, di) && 0 !in name && kind in {FILE, DIR} && perm < U16
    ensures Make(s, di, name, kind, perm).0.sb.magic == s.sb.magic
  {
    hide Own, AddEntry, Sync, Make, HasRoom, Target, NameOf;
    MakeSteps(s, di, name, kind, perm);
    if NewChild(s) >= 0 {
      var t := WithChild(s, name, kind, perm);
      NewInode(s, NewChild(s), t.inodes[NewChild(s)]);
      AddEntryEnters(t, di, NewChild(s), name, 0);
      SyncKeeps(AddEntry(t, di, NewChild(s), name, 0).0);
    }
  }

  /** On the formatted volume unlink finds nothing, there is no file to write, and the first create or
      mkdir leads to the invariant. */
  lemma FormattedStep(s: Fs, op: Op)
    requires Formatted(s) && Legal(s, op)
    ensures Apply(s, op) == s || Kept(s, Apply(s, op), true, true)
  {
    assert Shape(s);
    NoFileYet(s, op);
    hide Virgin, Make, Unlink, InSync, FilesWhole, Inv;
    match op
    case Creates(di, name) => FirstMake(s, di, name, FILE, 0x1A4);
    case Mkdirs(di, name) => FirstMake(s, di, name, DIR, 0x1ED);
    case Writes(ino, offset, buf) => assert false;
    case Unlinks(di, name) => UnlinkMisses(s, di, name);
  }

  lemma FirstMake(s: Fs, di: nat, name: seq<byte>, kind: byte, perm: nat)
    requires Formatted(s) && LiveDir(s, di) && 0 !in name && kind in {FILE, DIR} && perm < U16
    ensures Kept(s, Make(s, di, name, kind, perm).0, true, true)
  {
    hide Make, InSync, FilesWhole, Inv, Finddir, Own, Dirs, TailsClean;
    assert s.inodes[2].kind == FREE;
    FirstMakeIsLost(s, di, name, kind, perm, di, name);
  }

  lemma UnlinkMisses(s: Fs, di: nat, name: seq<byte>)
    requires Virgin(s) && LiveDir(s, di)
    ensures forall q | 0 <= q < MAX_SLOTS && Used(s, di, q) :: SlotIno(s, di, q) < MAX_INODES
    ensures Unlink(s, di, name).0 == s
  {
    EntriesInRange(s, di);
    UnlinkSteps(s, di, name);
    VirginPointers(s);
    hide Unlink, Target, NameOf, Used, SlotIno, Own, Dirs;
    assert Dirs(s) && Prefix(s.inodes, di) by { RootPrefix(s, di); }
    ScanIsComplete(s, di, name);
  }

  lemma RootPrefix(s: Fs, di: nat)
    requires Virgin(s) && LiveDir(s, di)
    ensures Dirs(s) && Prefix(s.inodes, di)
  {}

  lemma GoodStep(s: Fs, op: Op)
    requires Good(s) && Legal(s, op)
    ensures Good(Apply(s, op))
  {
    hide Inv, Apply, Legal, InSync, FilesWhole, Virgin;
    if Inv(s) {
      StepKeeps(s, op);
    } else {
      FormattedStep(s, op);
    }
  }

  ghost predicate LegalRun(s: Fs, ops: seq<Op>)
    requires Good(s)
    decreases |ops|
  {
    ops == [] || (Legal(s, ops[0]) && (GoodStep(s, ops[0]); LegalRun(Apply(s, ops[0]), ops[1..])))
  }

  ghost function Run(s: Fs, ops: seq<Op>): Fs
    requires Good(s) && LegalRun(s, ops)
    decreases |ops|
  {
    if ops == [] then s else
      GoodStep(s, ops[0]);
      Run(Apply(s, ops[0]), ops[1..])
  }

  /** No write of the run fills a hole without growing its file. */
  ghost predicate SyncedRun(s: Fs, ops: seq<Op>)
    requires Good(s) && LegalRun(s, ops)
    decreases |ops|
  {
    ops == [] || (Synced(s, ops[0]) && (GoodStep(s, ops[0]); SyncedRun(Apply(s, ops[0]), ops[1..])))
  }

  /** Every write of the run starts inside its file or at the end. */
  ghost predicate InsideRun(s: Fs, ops: seq<Op>)
    requires Good(s) && LegalRun(s, ops)
    decreases |ops|
  {
    ops == [] || (Inside(s, ops[0]) && (GoodStep(s, ops[0]); InsideRun(Apply(s, ops[0]), ops[1..])))
  }

  // ---------------------------------------------------------------- the block a fresh volume loses

  /** A freshly formatted volume: no block taken yet, so the next one handed out is block 0. */
  ghost predicate Virgin(s: Fs) {
    && Core(s) && s.sb.totalBlocks > 0
    && (forall b: nat | b < 8 * BITMAP_BYTES :: !Taken(s.bitmap, b))
  }

  /** What stackfs_format leaves: besides the root directory every inode is free. */
  ghost predicate Formatted(s: Fs) {
    Virgin(s) && forall i: nat | i < MAX_INODES && i != ROOT :: s.inodes[i].kind == FREE
  }

  lemma VirginPointers(s: Fs)
    requires Virgin(s)
    ensures forall i: nat, k: nat :: Ptr(s.inodes, i, k) == 0
    ensures BitmapAlloc(s).1 == 0
    ensures forall i: nat, q: nat :: Target(s, i, q) == 0
  {
    hide TargetsLive, TargetsDistinct, NamesTerminated;
    forall i: nat, k: nat ensures Ptr(s.inodes, i, k) == 0 {
    }
  }

  lemma {:induction false} CountAllFree(bitmap: seq<byte>, n: nat)
    requires n <= 8 * |bitmap| && forall b: nat | b < n :: !Taken(bitmap, b)
    ensures CountFree(bitmap, n) == n
  {
    if n > 0 { CountAllFree(bitmap, n - 1); }
  }

  lemma {:induction false} CountFreeExcept(t: seq<Inode>, x: nat)
    requires x < |t| && t[x].kind != FREE && forall i | 0 <= i < |t| && i != x :: t[i].kind == FREE
    ensures CountFreeInodes(t) == |t| - 1
  {
    if x == |t| - 1 {
      CountFreeAll(t[..x]);
    } else {
      CountFreeExcept(t[..|t| - 1], x);
    }
  }

  lemma {:induction false} CountFreeAll(t: seq<Inode>)
    requires forall i | 0 <= i < |t| :: t[i].kind == FREE
    ensures CountFreeInodes(t) == |t|
  {
    if t != [] { CountFreeAll(t[..|t| - 1]); }
  }

  /** stackfs_format leaves an empty volume whose disk image is complete. */
  lemma FormatIsEmpty(before: Fs, sectors: nat, volume: seq<byte>)
    requires DiskOf(sectors, before)
    ensures var r := Format(before, sectors, volume);
            Formatted(r) && InSync(r) && r.sb.magic == MAGIC && r.sb.freeBlocks == r.sb.totalBlocks
  {
    var total := (sectors - DATA_START) / SECS_PER_BLOCK;
    var sb := Super(MAGIC, VERSION, total, total, MAX_INODES, MAX_INODES - 1, ROOT, 0,
                    CopyStr(Zeros(32), volume), Zeros(452));
    var root := ZeroInode().(kind := DIR, perm := 0x1ED, name := CopyStr(Zeros(NAME_MAX), [0x2F]));
    var t := seq(MAX_INODES, i => if i == ROOT then root else ZeroInode());
    var s := Fs(sb, t, Zeros(BITMAP_BYTES), before.meta, before.data, true, true, true);
    SyncSaves(s);
    SyncKeeps(s);
    var r := Format(before, sectors, volume);
    hide Sync, PutSuper, PutTable, Cut, CopyStr;
    assert r == Sync(s);
    FreshParts(r);
  }

  /** Its superblock and root directory: the number of whole blocks behind the metadata, all of them free
      as are all inodes but the root, the label, and an empty directory named "/" with mode 0755. */
  lemma FormatFields(before: Fs, sectors: nat, volume: seq<byte>)
    requires DiskOf(sectors, before)
    ensures var r := Format(before, sectors, volume);
            && r.data == before.data && r.sb.totalBlocks == r.sb.freeBlocks == |before.data|
            && DATA_START + SECS_PER_BLOCK * r.sb.totalBlocks <= sectors < DATA_START + SECS_PER_BLOCK * (r.sb.totalBlocks + 1)
            && (r.sb.magic, r.sb.version, r.sb.totalInodes, r.sb.freeInodes, r.sb.rootInode) == (MAGIC, VERSION, 128, 127, 1)
            && (0 !in volume ==> CStr(r.sb.volume) == volume[..Min(|volume|, 31)])
            && r.inodes[1].kind == DIR && r.inodes[1].perm == 7 * 64 + 5 * 8 + 5 && r.inodes[1].size == 0
            && CStr(r.inodes[1].name) == [47]
  {
    if 0 !in volume { CopyStrReads(Zeros(32), volume); }
    CopyStrReads(Zeros(NAME_MAX), [0x2F]);
    assert [0x2F][..1] == [0x2F as byte];
    hide CStr, CopyStr, Sync;
    var total := (sectors - DATA_START) / SECS_PER_BLOCK;
    var sb := Super(MAGIC, VERSION, total, total, MAX_INODES, MAX_INODES - 1, ROOT, 0,
                    CopyStr(Zeros(32), volume), Zeros(452));
    var root := ZeroInode().(kind := DIR, perm := 0x1ED, name := CopyStr(Zeros(NAME_MAX), [0x2F]));
    var t := seq(MAX_INODES, i => if i == ROOT then root else ZeroInode());
    SyncKeeps(Fs(sb, t, Zeros(BITMAP_BYTES), before.meta, before.data, true, true, true));
  }

  lemma FreshParts(r: Fs)
    requires Shape(r) && r.sb.totalBlocks > 0 && r.sb.freeBlocks == r.sb.totalBlocks && r.sb.freeInodes == MAX_INODES - 1
    requires r.bitmap == Zeros(BITMAP_BYTES) && r.inodes[ROOT].kind == DIR && r.inodes[ROOT].blocks == NoBlocks()
    requires forall i: nat | i < MAX_INODES && i != ROOT :: r.inodes[i] == ZeroInode()
    ensures Virgin(r)
  {
    forall b: nat | b < 8 * BITMAP_BYTES ensures !Taken(r.bitmap, b) { ZeroBits(b % 8); }
    assert forall i: nat, k: nat :: Ptr(r.inodes, i, k) == 0;
    CountAllFree(r.bitmap, r.sb.totalBlocks);
    CountFreeExcept(r.inodes, ROOT);
  }

  // ---------------------------------------------------------------- operations on a fresh volume

  /** dir_add_entry on a fresh volume gets block 0, stores 0 into the pointer, which still means
      "no block", and writes the entry where no lookup will find it. */
  lemma LostEntry(s: Fs, di: nat, child: nat, name: seq<byte>)
    requires Virgin(s) && LiveDir(s, di) && 0 < child < U32 && 0 !in name
    ensures var (r, rc) := AddEntry(s, di, child, name, 0);
            && rc == 0 && Inv(r) && SameEntries(s, r) && r.inodes == s.inodes && (FilesWhole(s) ==> FilesWhole(r))
            && r.sb == s.sb.(freeBlocks := s.sb.freeBlocks - 1)
            && r.inodesDirty && r.bitmapDirty && r.sbDirty && r.meta == s.meta
  {
    hide PutEntry, EntryName, CopyStr, EntryIno, FirstFree, Mark, CountFree, CountFreeInodes, OwnTable, Dirs, TailsClean;
    VirginPointers(s);
    EmptyBlock(0);
    CountMark(s.bitmap, 0, s.sb.totalBlocks);
    var image := PutEntry(Zeros(BLOCK), 0, child, CopyStr(EntryName(Zeros(BLOCK), 0), name));
    var u := s.(bitmap := Mark(s.bitmap, 0), sb := s.sb.(freeBlocks := s.sb.freeBlocks - 1),
                bitmapDirty := true, sbDirty := true, inodesDirty := true, data := s.data[0 := image]);
    assert SetPtr(s.inodes, di, 0, 0) == s.inodes by {
      assert s.inodes[di].blocks[0] == Ptr(s.inodes, di, 0) == 0;
      assert s.inodes[di].blocks[0 := 0] == s.inodes[di].blocks;
    }
    assert AddEntry(s, di, child, name, 0) == (u, 0);
    FirstBlockTaken(s, u);
  }

  /** Taking block 0 without anyone pointing to it. */
  lemma FirstBlockTaken(s: Fs, u: Fs)
    requires Virgin(s) && Shape(u) && u.inodes == s.inodes && u.bitmap == Mark(s.bitmap, 0)
    requires u.sb == s.sb.(freeBlocks := s.sb.freeBlocks - 1)
    requires CountFree(u.bitmap, u.sb.totalBlocks) == CountFree(s.bitmap, s.sb.totalBlocks) - 1
    ensures Inv(u) && SameEntries(s, u)
  {
    VirginPointers(s);
    hide CountFree, CountFreeInodes, SlotIno, SlotName;
    assert forall i: nat, q: nat :: Target(u, i, q) == 0 && NameOf(u, i, q) == NameOf(s, i, q);
    assert forall i: nat, p: nat | i < MAX_INODES :: Cell(u, i, p) == 0;
  }

  /** The first create or mkdir on a fresh volume reports success and uses up an inode, but its name
      is found by no lookup; from then on the volume invariant holds. */
  lemma FirstMakeIsLost(s: Fs, di: nat, name: seq<byte>, kind: byte, perm: nat, j: nat, nm: seq<byte>)
    requires Virgin(s) && LiveDir(s, di) && 0 !in name && kind in {FILE, DIR} && perm < U16 && NewChild(s) >= 0
    requires LiveDir(s, j)
    ensures var (r, rc) := Make(s, di, name, kind, perm);
            && rc == 0 && Inv(r) && (InSync(s) ==> InSync(r)) && r.inodes[NewChild(s)].kind == kind
            && r.sb.magic == s.sb.magic && Finddir(r, j, nm) == 0 && (FilesWhole(s) ==> FilesWhole(r))
            && r.inodes == WithChild(s, name, kind, perm).inodes && SameEntries(s, r)
            && r.sb.freeBlocks == s.sb.freeBlocks - 1
  {
    hide Own, AddEntry, SuperSaved, TableSaved, BitmapSaved, Sync, Make, TargetsLive, TargetsDistinct, NamesTerminated,
         SlotIno, SlotName;
    MakeSteps(s, di, name, kind, perm);
    VirginPointers(s);
    var t := WithChild(s, name, kind, perm);
    NewInode(s, NewChild(s), t.inodes[NewChild(s)]);
    LostEntry(t, di, NewChild(s), name);
    var u := AddEntry(t, di, NewChild(s), name, 0).0;
    SyncInv(u);
    SyncKeeps(u);
    SyncSaves(u);
    FinddirMisses(Sync(u), j, nm);
  }

  /** From format through the first directory: the volume every later run starts from. */
  lemma BootReachesInv(before: Fs, sectors: nat, volume: seq<byte>, name: seq<byte>, nm: seq<byte>)
    requires DiskOf(sectors, before) && 0 !in name
    ensures var r := Mkdir(Format(before, sectors, volume), ROOT, name).0;
            Inv(r) && InSync(r) && r.sb.magic == MAGIC && Finddir(r, ROOT, nm) == 0
  {
    hide Format, Virgin, InSync, Make, Finddir, Inv;
    FormatIsEmpty(before, sectors, volume);
    var s := Format(before, sectors, volume);
    assert s.inodes[2].kind == FREE;
    VirginRoot(s);
    FirstMakeIsLost(s, ROOT, name, DIR, 0x1ED, ROOT, nm);
  }

  lemma VirginRoot(s: Fs)
    requires Virgin(s)
    ensures LiveDir(s, ROOT)
  {
  }

  /** Exactly when a created name can be looked up: block 0 must have been handed out before, and the
      directory must have room. */
  lemma MakeVisibleIff(s: Fs, di: nat, name: seq<byte>, kind: byte, perm: nat)
    requires (Inv(s) || Virgin(s)) && LiveDir(s, di) && 0 !in name && kind in {FILE, DIR} && perm < U16
    requires NewChild(s) >= 0 && Stored(name) != [] && NoMatch(s, di, Stored(name))
    ensures Finddir(Make(s, di, name, kind, perm).0, di, Stored(name)) == NewChild(s)
            <==> Taken(s.bitmap, 0) && HasRoom(s, di)
  {
    hide Own, Dirs, TailsClean, FilesWhole, Make, HasRoom, Finddir, NoMatch;
    if Taken(s.bitmap, 0) {
      MakeInsertsName(s, di, name, kind, perm);
    } else {
      FirstMakeIsLost(s, di, name, kind, perm, di, Stored(name));
    }
  }

  // ---------------------------------------------------------------- every run from format on

  /** Over every run: block ownership, directory structure and clean file ends are kept from the first
      create or mkdir on, before which the volume is untouched; the disk is in step with memory after
      every operation exactly when no write fills a hole without growing its file; and when all writes
      start inside their files, none does, and no file ever has a hole. */
  lemma {:induction false} RunKeeps(s: Fs, ops: seq<Op>)
    requires Good(s) && LegalRun(s, ops)
    ensures var r := Run(s, ops);
            && Good(r) && (r == s || Inv(r)) && r.sb.magic == s.sb.magic
            && (InSync(s) ==> (AlwaysInSync(s, ops) <==> SyncedRun(s, ops)))
            && (AlwaysInSync(s, ops) ==> InSync(r))
            && (FilesWhole(s) && InsideRun(s, ops) ==> FilesWhole(r) && (InSync(s) ==> SyncedRun(s, ops)))
    decreases |ops|
  {
    hide Inv, InSync, Apply, Legal, Synced, Inside, Formatted, FilesWhole;
    if ops != [] {
      GoodStep(s, ops[0]);
      StepEffect(s, ops[0]);
      RunKeeps(Apply(s, ops[0]), ops[1..]);
    }
  }

  /** The disk is in step with memory at the start and after every operation of the run. */
  ghost predicate AlwaysInSync(s: Fs, ops: seq<Op>)
    requires Good(s) && LegalRun(s, ops)
    decreases |ops|
  {
    InSync(s) && (ops == [] || (GoodStep(s, ops[0]); AlwaysInSync(Apply(s, ops[0]), ops[1..])))
  }

  lemma StepEffect(s: Fs, op: Op)
    requires Good(s) && Legal(s, op)
    ensures var r := Apply(s, op);
            && (r == s || Inv(r)) && r.sb.magic == s.sb.magic
            && (InSync(s) ==> (InSync(r) <==> Synced(s, op)))
            && (FilesWhole(s) && Inside(s, op) ==> FilesWhole(r) && (InSync(s) ==> Synced(s, op)))
  {
    hide Inv, InSync, Apply, Legal, FilesWhole, Virgin;
    if Inv(s) {
      StepKeeps(s, op);
    } else {
      NoFileYet(s, op);
      FormattedStep(s, op);
    }
  }

  lemma NoFileYet(s: Fs, op: Op)
    requires Formatted(s) && Legal(s, op)
    ensures !op.Writes?
  {}

  /** stackfs_mount after a run, from whatever memory contents, gives back the state the run ended in. */
  lemma RunRemounts(s: Fs, ops: seq<Op>, r: Fs, before: Fs)
    requires Good(s) && InSync(s) && s.sb.magic == MAGIC && LegalRun(s, ops) && SyncedRun(s, ops) && r == Run(s, ops)
    requires before.meta == r.meta && before.data == r.data && SuperFits(before.sb)
    ensures InSync(r) && Mount(before) == (r.(sb := r.sb.(pad := r.sb.pad[..448] + before.sb.pad[448..])), true)
  {
    RunKeeps(s, ops);
    hide Run, LegalRun, SyncedRun, AlwaysInSync, Mount, Good;
    RemountIsIdentity(r, before);
  }

  predicate DiskOf(sectors: nat, before: Fs) {
    && DATA_START + SECS_PER_BLOCK <= sectors < U32 && (sectors - DATA_START) / SECS_PER_BLOCK <= MAX_BLOCKS
    && |before.meta| == DATA_START && |before.data| == (sectors - DATA_START) / SECS_PER_BLOCK
  }

  /** A formatted volume is a state that runs can start from. */
  lemma FormatIsGood(before: Fs, sectors: nat, volume: seq<byte>)
    requires DiskOf(sectors, before)
    ensures var f := Format(before, sectors, volume); Good(f) && InSync(f) && FilesWhole(f) && f.sb.magic == MAGIC
  {
    hide Format, InSync;
    FormatIsEmpty(before, sectors, volume);
  }

  /** From format on: the state after any run is the untouched formatted volume or satisfies the
      invariant, and then whatever is written to a file, at any offset, is read back. */
  lemma FormatRun(f: Fs, ops: seq<Op>, s: Fs, ino: nat, offset: nat, buf: seq<byte>)
    requires Formatted(f) && LegalRun(f, ops) && s == Run(f, ops) && offset < U32
    ensures s == f || Inv(s)
    ensures LiveFile(s, ino) ==>
              && Inv(s)
              && var (r, done) := Write(s, ino, offset, buf);
                 && done == Reach(s.inodes, ino, s.sb.freeBlocks, offset, |buf|)
                 && Read(r, ino, offset, done).1 == buf[..done]
  {
    RunKeeps(f, ops);
    if LiveFile(s, ino) {
      hide Run, LegalRun, Write, Read, Reach, Own, Dirs, CleanTail, Virgin;
      WriteRefines(s, ino, offset, buf);
      WriteThenRead(s, ino, offset, buf);
    }
  }
}

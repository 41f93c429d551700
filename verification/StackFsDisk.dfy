/** StackFS as the kernel runs it (kernel/fs/stackfs.c): static tables, a bitmap and block buffers
    updated in place, over a disk of 512-byte sectors that does not fail. Every operation is
    proved equal to its counterpart on the value of the whole volume in module StackFs. */
module StackFsDisk {
  import opened Bytes
  import opened StackFsLayout
  import S = StackFs
  import F = StackFsFiles

  function BlkLba(b: nat): nat { DATA_START + b * SECS_PER_BLOCK }

  /** The number of data blocks behind the metadata. */
  function BlockCount(sectors: nat): nat
    requires sectors >= DATA_START
  {
    (sectors - DATA_START) / SECS_PER_BLOCK
  }

  /** Data block b of a disk: eight consecutive sectors. */
  function BlockOf(d: seq<Sector>, b: nat): S.Block
    requires |d| >= DATA_START && b < BlockCount(|d|)
  {
    Join(d[BlkLba(b)..BlkLba(b) + SECS_PER_BLOCK])
  }

  function BlocksOf(d: seq<Sector>): (r: seq<S.Block>)
    requires |d| >= DATA_START
    ensures |r| == BlockCount(|d|)
    ensures forall b | 0 <= b < |r| :: r[b] == BlockOf(d, b)
  {
    seq(BlockCount(|d|), b requires 0 <= b < BlockCount(|d|) => BlockOf(d, b))
  }

  /** The disk after a block has been written. */
  function PutBlock(d: seq<Sector>, b: nat, image: S.Block): (r: seq<Sector>)
    requires |d| >= DATA_START && b < BlockCount(|d|)
    ensures |r| == |d|
  {
    d[..BlkLba(b)] + Cut(image) + d[BlkLba(b) + SECS_PER_BLOCK..]
  }

  /** Distinct blocks occupy disjoint sectors, and none of them a metadata sector. */
  lemma PutBlockFrame(d: seq<Sector>, b: nat, image: S.Block)
    requires |d| >= DATA_START && b < BlockCount(|d|)
    ensures BlocksOf(PutBlock(d, b, image)) == BlocksOf(d)[b := image]
    ensures PutBlock(d, b, image)[..DATA_START] == d[..DATA_START]
  {
    var r := PutBlock(d, b, image);
    JoinCut(image, SECS_PER_BLOCK);
    forall c | 0 <= c < BlockCount(|d|) ensures BlockOf(r, c) == if c == b then image else BlockOf(d, c) {
      if c == b {
        assert r[BlkLba(c)..BlkLba(c) + SECS_PER_BLOCK] == Cut(image);
      } else {
        assert r[BlkLba(c)..BlkLba(c) + SECS_PER_BLOCK] == d[BlkLba(c)..BlkLba(c) + SECS_PER_BLOCK];
      }
    }
  }

  lemma MetaFrame(d: seq<Sector>, e: seq<Sector>)
    requires |d| == |e| >= DATA_START && d[DATA_START..] == e[DATA_START..]
    ensures BlocksOf(d) == BlocksOf(e)
  {
    forall b | 0 <= b < BlockCount(|d|) ensures BlockOf(d, b) == BlockOf(e, b) {
      var lo := BlkLba(b);
      SliceShift(d, DATA_START, lo, lo + SECS_PER_BLOCK);
      SliceShift(e, DATA_START, lo, lo + SECS_PER_BLOCK);
    }
  }

  /** Sectors written over the metadata, seen in the metadata alone. */
  lemma SplicedMeta(was: seq<Sector>, now: seq<Sector>, at: nat, cut: seq<Sector>)
    requires |was| >= DATA_START && at + |cut| <= DATA_START
    requires now == was[..at] + cut + was[at + |cut|..]
    ensures |now| == |was| && now[DATA_START..] == was[DATA_START..]
    ensures now[..DATA_START] == was[..DATA_START][..at] + cut + was[..DATA_START][at + |cut|..]
  {
    assert now[at + |cut|..] == was[at + |cut|..];
    assert now[..DATA_START] == was[..at] + cut + was[at + |cut|..DATA_START];
  }

  class Volume {
    var sb: Super
    const inodes: array<Inode>
    const bitmap: array<byte>
    const disk: array<Sector>
    var sbDirty: bool
    var inodesDirty: bool
    var bitmapDirty: bool
    const bufRw: array<byte>
    const bufFind: array<byte>

    /** The static arrays are there, distinct, and of their declared sizes. */
    ghost predicate Arrays() {
      && inodes.Length == MAX_INODES && bitmap.Length == BITMAP_BYTES && disk.Length >= DATA_START
      && bufRw.Length == BLOCK && bufFind.Length == BLOCK
      && bitmap != bufRw && bitmap != bufFind && bufRw != bufFind
    }

    ghost function State(): S.Fs
      requires Arrays()
      reads this, inodes, bitmap, disk
    {
      S.Fs(sb, inodes[..], bitmap[..], disk[..DATA_START], BlocksOf(disk[..]), sbDirty, inodesDirty, bitmapDirty)
    }

    ghost predicate Valid()
      reads this, inodes, bitmap, disk
    {
      Arrays() && S.Shape(State())
    }

    /** An inode's pointers are block numbers of the disk, or 0. */
    lemma Pointers(i: nat)
      requires Valid() && i < MAX_INODES
      ensures |inodes[i].blocks| == DIRECT
      ensures forall k | 0 <= k < DIRECT ::
                && inodes[i].blocks[k] == S.Ptr(inodes[..], i, k)
                && inodes[i].blocks[k] < 8 * BITMAP_BYTES && inodes[i].blocks[k] < Max(1, BlockCount(disk.Length))
    {
      assert S.Shape(State());
      assert forall k | 0 <= k < DIRECT :: inodes[i].blocks[k] == S.Ptr(inodes[..], i, k);
    }

    // -------------------------------------------------------------- block I/O

    method ReadBlock(b: nat, buf: array<byte>)
      requires Arrays() && b < BlockCount(disk.Length) && buf.Length == BLOCK && buf != bitmap
      modifies buf
      ensures buf[..] == BlockOf(disk[..], b)
    {
      var lba := BlkLba(b);
      ghost var part := disk[lba..lba + SECS_PER_BLOCK];
      assert part == disk[..][lba..lba + SECS_PER_BLOCK];
      for s := 0 to SECS_PER_BLOCK
        invariant buf[..SECTOR * s] == Join(part[..s])
        invariant disk[..] == old(disk[..])
      {
        var sector: Sector := disk[lba + s];
        ghost var before := buf[..SECTOR * s];
        for i := 0 to SECTOR
          invariant buf[..SECTOR * s + i] == before + sector[..i]
          invariant disk[..] == old(disk[..])
        {
          buf[SECTOR * s + i] := sector[i];
          assert buf[..SECTOR * s + i] == before + sector[..i];
        }
        assert sector[..SECTOR] == sector;
        assert part[..s + 1][..s] == part[..s];
      }
      assert part[..SECS_PER_BLOCK] == part;
      assert buf[..] == buf[..SECTOR * SECS_PER_BLOCK];
    }

    method WriteBlock(b: nat, buf: array<byte>)
      requires Arrays() && b < BlockCount(disk.Length) && buf.Length == BLOCK
      modifies disk
      ensures disk[..] == PutBlock(old(disk[..]), b, buf[..])
      ensures disk[..DATA_START] == old(disk[..DATA_START])
      ensures BlocksOf(disk[..]) == old(BlocksOf(disk[..]))[b := buf[..]]
    {
      var lba := BlkLba(b);
      ghost var was := disk[..];
      ghost var cut := Cut(buf[..]);
      for s := 0 to SECS_PER_BLOCK
        invariant disk[..] == was[..lba] + cut[..s] + was[lba + s..]
      {
        var sector: Sector := buf[SECTOR * s..SECTOR * s + SECTOR];
        assert sector == cut[s];
        OverwriteStep(was, lba, cut, s);
        disk[lba + s] := sector;
      }
      assert cut[..SECS_PER_BLOCK] == cut;
      PutBlockFrame(was, b, buf[..]);
      assert disk[..DATA_START] == disk[..][..DATA_START] && was[..DATA_START] == old(disk[..DATA_START]);
    }

    // -------------------------------------------------------------- allocators

    method BitmapAlloc() returns (r: int)
      requires Valid()
      modifies this`sb, this`sbDirty, this`bitmapDirty, bitmap
      ensures Valid() && (State(), r) == S.BitmapAlloc(old(State()))
    {
      for i := 0 to sb.totalBlocks
        invariant State() == old(State())
        invariant S.FirstFree(bitmap[..], sb.totalBlocks, 0) == S.FirstFree(bitmap[..], sb.totalBlocks, i)
      {
        if !Bit(bitmap[i / 8], i % 8) {
          bitmap[i / 8] := S.SetByte(bitmap[i / 8], i % 8);
          sb := sb.(freeBlocks := S.Dec(sb.freeBlocks));
          bitmapDirty := true;
          sbDirty := true;
          assert bitmap[..] == S.Mark(old(bitmap[..]), i);
          return i;
        }
      }
      return -1;
    }

    method BitmapFree(b: nat)
      requires Valid() && b < 8 * BITMAP_BYTES
      modifies this`sb, this`sbDirty, this`bitmapDirty, bitmap
      ensures Valid() && State() == S.BitmapFree(old(State()), b)
    {
      bitmap[b / 8] := S.ClearByte(bitmap[b / 8], b % 8);
      sb := sb.(freeBlocks := S.Inc(sb.freeBlocks));
      bitmapDirty := true;
      sbDirty := true;
      assert bitmap[..] == S.Unmark(old(bitmap[..]), b);
    }

    method AllocInode() returns (r: int)
      requires Valid()
      modifies this`sb, this`sbDirty, this`inodesDirty
      ensures Valid() && (State(), r) == S.AllocInode(old(State()))
    {
      for i := 1 to MAX_INODES
        invariant State() == old(State())
        invariant S.FirstFreeInode(inodes[..], 1) == S.FirstFreeInode(inodes[..], i)
      {
        if inodes[i].kind == FREE {
          sb := sb.(freeInodes := S.Dec(sb.freeInodes));
          sbDirty := true;
          inodesDirty := true;
          return i;
        }
      }
      return -1;
    }

    // -------------------------------------------------------------- sync

    method SaveInodes()
      requires Valid()
      modifies this`inodesDirty, disk
      ensures Valid() && State() == S.SyncInodes(old(State()).(inodesDirty := true))
    {
      hide PutTable, Cut;
      var src := PutTable(inodes[..]);
      ghost var was, cut := disk[..], Cut(src);
      for s := 0 to INODE_SECS
        invariant disk[..] == was[..INODE_START] + cut[..s] + was[INODE_START + s..]
        invariant (sb, inodes[..], bitmap[..], sbDirty, bitmapDirty)
               == old((sb, inodes[..], bitmap[..], sbDirty, bitmapDirty))
      {
        OverwriteStep(was, INODE_START, cut, s);
        disk[INODE_START + s] := src[SECTOR * s..SECTOR * s + SECTOR];
      }
      inodesDirty := false;
      assert cut[..INODE_SECS] == cut;
      SplicedMeta(was, disk[..], INODE_START, cut);
      MetaFrame(was, disk[..]);
    }

    method SaveBitmap()
      requires Valid()
      modifies this`bitmapDirty, disk
      ensures Valid() && State() == S.SyncBitmap(old(State()).(bitmapDirty := true))
    {
      ghost var was, cut := disk[..], Cut(bitmap[..]);
      for s := 0 to BITMAP_SECS
        invariant disk[..] == was[..BITMAP_START] + cut[..s] + was[BITMAP_START + s..]
        invariant (sb, inodes[..], bitmap[..], sbDirty, inodesDirty)
               == old((sb, inodes[..], bitmap[..], sbDirty, inodesDirty))
      {
        var sector: Sector := bitmap[SECTOR * s..SECTOR * s + SECTOR];
        assert sector == cut[s];
        OverwriteStep(was, BITMAP_START, cut, s);
        disk[BITMAP_START + s] := sector;
      }
      bitmapDirty := false;
      assert cut[..BITMAP_SECS] == cut;
      SplicedMeta(was, disk[..], BITMAP_START, cut);
      MetaFrame(was, disk[..]);
    }

    method SaveSuper()
      requires Valid()
      modifies this`sbDirty, disk
      ensures Valid() && State() == S.SyncSuper(old(State()).(sbDirty := true))
    {
      ghost var was := disk[..];
      disk[SB_SECTOR] := PutSuper(sb);
      sbDirty := false;
      MetaFrame(was, disk[..]);
      assert disk[..DATA_START] == was[..DATA_START][SB_SECTOR := PutSuper(sb)];
    }

    method Sync()
      requires Valid()
      modifies this`sbDirty, this`inodesDirty, this`bitmapDirty, disk
      ensures Valid() && State() == S.Sync(old(State()))
    {
      if inodesDirty { SaveInodes(); }
      assert State() == S.SyncInodes(old(State()));
      if bitmapDirty { SaveBitmap(); }
      if sbDirty { SaveSuper(); }
    }

    /** stackfs_mount: false is the bad-magic return. */
    method Mount() returns (ok: bool)
      requires Arrays() && |sb.pad| == 452
      modifies this, inodes, bitmap
      ensures Arrays() && (State(), ok) == S.Mount(old(State()))
    {
      sb := GetSuper(disk[SB_SECTOR], sb);
      if sb.magic != MAGIC {
        return false;
      }
      LoadInodes();
      LoadBitmap();
      assert disk[..DATA_START][INODE_START..BITMAP_START] == disk[INODE_START..BITMAP_START];
      assert disk[..DATA_START][BITMAP_START..] == disk[BITMAP_START..DATA_START];
      sbDirty, inodesDirty, bitmapDirty := false, false, false;
      return true;
    }

    method LoadInodes()
      requires Arrays()
      modifies inodes
      ensures inodes[..] == GetTable(Join(disk[INODE_START..BITMAP_START]))
    {
      var bytes: seq<byte> := [];
      ghost var part := disk[INODE_START..BITMAP_START];
      for s := 0 to INODE_SECS
        invariant bytes == Join(part[..s])
      {
        bytes := bytes + disk[INODE_START + s];
        assert part[..s + 1][..s] == part[..s];
      }
      assert part[..INODE_SECS] == part;
      var table := GetTable(bytes);
      for i := 0 to MAX_INODES
        invariant inodes[..i] == table[..i]
        invariant disk[..] == old(disk[..])
      {
        inodes[i] := table[i];
        assert inodes[..i + 1] == table[..i + 1];
      }
      assert inodes[..] == inodes[..MAX_INODES] && table == table[..MAX_INODES];
    }

    method LoadBitmap()
      requires Arrays()
      modifies bitmap
      ensures bitmap[..] == Join(disk[BITMAP_START..DATA_START])
    {
      ghost var part := disk[BITMAP_START..DATA_START];
      for s := 0 to BITMAP_SECS
        invariant bitmap[..SECTOR * s] == Join(part[..s])
        invariant disk[..] == old(disk[..])
      {
        var sector: Sector := disk[BITMAP_START + s];
        ghost var before := bitmap[..SECTOR * s];
        for i := 0 to SECTOR
          invariant bitmap[..SECTOR * s + i] == before + sector[..i]
          invariant disk[..] == old(disk[..])
        {
          bitmap[SECTOR * s + i] := sector[i];
          assert bitmap[..SECTOR * s + i] == before + sector[..i];
        }
        assert sector[..SECTOR] == sector && part[..s + 1][..s] == part[..s];
      }
      assert part[..BITMAP_SECS] == part && bitmap[..] == bitmap[..SECTOR * BITMAP_SECS];
    }

    // -------------------------------------------------------------- files

    method Read(ino: int, offset: nat, size: nat) returns (r: int, out: seq<byte>)
      requires Valid() && offset < U32 && size < U32
      modifies bufRw
      ensures Valid() && State() == old(State()) && (r, out) == S.Read(State(), ino, offset, size)
    {
      hide S.ReadFrom;
      if ino <= 0 || ino >= MAX_INODES || inodes[ino].kind != FILE {
        return -1, [];
      }
      if offset >= inodes[ino].size {
        return 0, [];
      }
      out := ReadLoop(ino, offset, if (offset + size) % U32 > inodes[ino].size then inodes[ino].size - offset else size);
      r := |out|;
    }

    method ReadLoop(ino: nat, offset: nat, want: nat) returns (out: seq<byte>)
      requires Valid() && ino < MAX_INODES
      modifies bufRw
      ensures Valid() && State() == old(State()) && out == S.ReadFrom(State(), ino, offset, want)
    {
      hide S.ReadFrom;
      out := [];
      ghost var st := State();
      ghost var all := S.ReadFrom(st, ino, offset, want);
      assert [] + all == all;
      while |out| < want
        invariant |out| <= want && Valid() && State() == st
        invariant out + S.ReadFrom(st, ino, offset + |out|, want - |out|) == all
      {
        var bi, bo := (offset + |out|) / BLOCK, (offset + |out|) % BLOCK;
        ReadFromStep(st, ino, offset + |out|, want - |out|, out);
        if bi >= DIRECT || inodes[ino].blocks[bi] == 0 {
          return;
        }
        ReadBlock(inodes[ino].blocks[bi], bufRw);
        var tc := Min(BLOCK - bo, want - |out|);
        assert bufRw[bo..bo + tc] == bufRw[..][bo..bo + tc];
        out := out + bufRw[bo..bo + tc];
      }
      ReadFromEnd(st, ino, offset + |out|, out);
    }

    /** The loop `for i < tw: buf_rw[bo+i] = buf[done+i]`. */
    method CopyIn(at: nat, chunk: seq<byte>)
      requires Arrays() && at + |chunk| <= BLOCK
      modifies bufRw
      ensures bufRw[..] == S.Splice(old(bufRw[..]), at, chunk)
    {
      ghost var was := bufRw[..];
      for i := 0 to |chunk|
        invariant bufRw[..] == was[..at] + chunk[..i] + was[at + i..]
      {
        OverwriteStep(was, at, chunk, i);
        bufRw[at + i] := chunk[i];
      }
      assert chunk[..|chunk|] == chunk;
    }

    method ClearBuf()
      requires Arrays()
      modifies bufRw
      ensures bufRw[..] == Zeros(BLOCK)
    {
      for i := 0 to BLOCK
        invariant forall j | 0 <= j < i :: bufRw[j] == 0
      {
        bufRw[i] := 0;
      }
    }

    /** One turn of the bfs_write loop. */
    method PutChunk(ino: nat, pos: nat, chunk: seq<byte>) returns (ok: bool)
      requires Valid() && ino < MAX_INODES && pos / BLOCK < DIRECT && pos % BLOCK + |chunk| <= BLOCK
      modifies this`sb, this`sbDirty, this`bitmapDirty, inodes, bitmap, disk, bufRw
      ensures Valid() && (State(), ok) == S.PutChunk(old(State()), ino, pos, chunk)
    {
      var bi := pos / BLOCK;
      assert S.Ptr(inodes[..], ino, bi) == inodes[ino].blocks[bi];
      if inodes[ino].blocks[bi] == 0 {
        var nb := BitmapAlloc();
        if nb < 0 {
          return false;
        }
        GiveBlock(ino, bi, nb);
        ClearBuf();
      } else {
        ReadBlock(inodes[ino].blocks[bi], bufRw);
      }
      CopyIn(pos % BLOCK, chunk);
      assert S.Ptr(inodes[..], ino, bi) == inodes[ino].blocks[bi];
      WriteBlock(inodes[ino].blocks[bi], bufRw);
      return true;
    }

    method GiveBlock(ino: nat, k: nat, b: nat)
      requires Valid() && ino < MAX_INODES && k < DIRECT && b < sb.totalBlocks
      modifies inodes
      ensures Valid() && State() == old(State()).(inodes := S.SetPtr(old(inodes[..]), ino, k, b))
    {
      inodes[ino] := inodes[ino].(blocks := inodes[ino].blocks[k := b]);
      assert inodes[..] == S.SetPtr(old(inodes[..]), ino, k, b);
    }

    method Write(ino: int, offset: nat, buf: seq<byte>) returns (r: int)
      requires Valid() && offset < U32
      modifies this, inodes, bitmap, disk, bufRw
      ensures Valid() && (State(), r) == S.Write(old(State()), ino, offset, buf)
    {
      hide S.WriteFrom, S.Extend, S.Sync;
      if ino <= 0 || ino >= MAX_INODES || inodes[ino].kind != FILE {
        return -1;
      }
      F.WriteIs(State(), ino, offset, buf);
      hide S.Write, S.Shape;
      r := WriteLoop(ino, offset, buf);
      FinishWrite(ino, offset + r);
    }

    method FinishWrite(ino: nat, end: nat)
      requires Valid() && ino < MAX_INODES && end < U32
      modifies this`sbDirty, this`inodesDirty, this`bitmapDirty, inodes, disk
      ensures Valid() && State() == S.Sync(S.Extend(old(State()), ino, end))
    {
      hide S.Extend, S.Sync, S.Shape;
      Extend(ino, end);
      Sync();
    }

    method Extend(ino: nat, end: nat)
      requires Valid() && ino < MAX_INODES && end < U32
      modifies this`inodesDirty, inodes
      ensures Valid() && State() == S.Extend(old(State()), ino, end)
    {
      if end > inodes[ino].size {
        inodes[ino] := inodes[ino].(size := end);
        inodesDirty := true;
        assert inodes[..] == S.PutNode(old(inodes[..]), ino, old(inodes[ino]).(size := end));
      }
    }

    method WriteLoop(ino: nat, offset: nat, buf: seq<byte>) returns (done: nat)
      requires Valid() && ino < MAX_INODES
      modifies this`sb, this`sbDirty, this`bitmapDirty, inodes, bitmap, disk, bufRw
      ensures Valid() && done <= |buf| && (done == 0 || offset + done <= MAX_FILE)
      ensures (State(), done) == S.WriteFrom(old(State()), ino, offset, buf)
    {
      hide S.WriteFrom, S.PutChunk, S.Shape;
      done := 0;
      ghost var goal := S.WriteFrom(State(), ino, offset, buf);
      assert buf[0..] == buf;
      while done < |buf|
        invariant Valid() && done <= |buf|
        invariant goal.0 == S.WriteFrom(State(), ino, offset + done, buf[done..]).0
        invariant goal.1 == done + S.WriteFrom(State(), ino, offset + done, buf[done..]).1
      {
        if (offset + done) / BLOCK >= DIRECT {
          S.WriteFromEnd(State(), ino, offset + done, buf[done..]);
          return;
        }
        var tw := Min(BLOCK - (offset + done) % BLOCK, |buf| - done);
        ghost var before, rest := State(), buf[done..];
        assert rest[..tw] == buf[done..done + tw] && rest[tw..] == buf[done + tw..];
        var ok := PutChunk(ino, offset + done, buf[done..done + tw]);
        S.WriteFromStep(before, ino, offset + done, rest, tw);
        if !ok {
          return;
        }
        done := done + tw;
      }
      S.WriteFromEnd(State(), ino, offset + done, buf[done..]);
    }

    // -------------------------------------------------------------- directories

    /** The scan for an empty entry of the block image in buf_rw. */
    method FindEmptyEntry() returns (e: nat)
      requires Arrays()
      ensures e == S.FirstEmptyEntry(bufRw[..], 0)
    {
      for i := 0 to PER_BLOCK
        invariant S.FirstEmptyEntry(bufRw[..], 0) == S.FirstEmptyEntry(bufRw[..], i)
      {
        assert bufRw[..][DIRENT * i..DIRENT * i + 4] == bufRw[DIRENT * i..DIRENT * i + 4];
        if GetU32(bufRw[DIRENT * i..DIRENT * i + 4]) == 0 {
          return i;
        }
      }
      return PER_BLOCK;
    }

    method StoreEntry(e: nat, ino: nat, name: seq<byte>)
      requires Arrays() && e < PER_BLOCK && |name| == NAME_MAX
      modifies bufRw
      ensures bufRw[..] == S.PutEntry(old(bufRw[..]), e, ino, name)
    {
      CopyIn(DIRENT * e, PutU32(ino) + name);
    }

    /** The block for the next entry in buf_rw: a fresh zeroed one, or the one that is there. */
    method OpenBlock(di: nat, k: nat) returns (ok: bool)
      requires Valid() && di < MAX_INODES && k < DIRECT
      modifies this`sb, this`sbDirty, this`bitmapDirty, this`inodesDirty, inodes, bitmap, bufRw
      ensures Valid() && (ok ==> BlockCount(disk.Length) > 0)
      ensures S.Ptr(old(inodes[..]), di, k) != 0 ==>
                ok && State() == old(State()) && bufRw[..] == State().data[S.Ptr(inodes[..], di, k)]
      ensures S.Ptr(old(inodes[..]), di, k) == 0 ==>
                var (s1, nb) := S.BitmapAlloc(old(State()));
                && ok == (nb >= 0)
                && (!ok ==> State() == old(State()))
                && (ok ==> bufRw[..] == Zeros(BLOCK)
                           && State() == s1.(inodes := S.SetPtr(s1.inodes, di, k, nb), inodesDirty := true))
    {
      if inodes[di].blocks[k] == 0 {
        var nb := BitmapAlloc();
        if nb < 0 {
          return false;
        }
        GiveBlock(di, k, nb);
        inodesDirty := true;
        ClearBuf();
      } else {
        ReadBlock(inodes[di].blocks[k], bufRw);
      }
      return true;
    }

    /** Put the new entry into the block image in buf_rw, if it has an empty entry, and write it back. */
    method FillEntry(di: nat, k: nat, child: nat, name: seq<byte>) returns (ok: bool)
      requires Valid() && di < MAX_INODES && k < DIRECT && BlockCount(disk.Length) > 0
      modifies disk, bufRw
      ensures Valid()
      ensures ok ==> (State(), 0) == S.FillEntry(old(State()), di, k, old(bufRw[..]), child, name)
      ensures !ok ==> State() == old(State())
                      && S.FillEntry(State(), di, k, old(bufRw[..]), child, name) == S.AddEntry(State(), di, child, name, k + 1)
    {
      Pointers(di);
      hide S.AddEntry, S.Shape;
      var e := FindEmptyEntry();
      if e == PER_BLOCK {
        return false;
      }
      assert S.EntryName(bufRw[..], e) == bufRw[DIRENT * e + 4..DIRENT * e + DIRENT];
      StoreEntry(e, child, CopyStr(bufRw[DIRENT * e + 4..DIRENT * e + DIRENT], name));
      assert S.Ptr(inodes[..], di, k) == inodes[di].blocks[k];
      WriteBlock(inodes[di].blocks[k], bufRw);
      return true;
    }

    method AddEntry(di: nat, child: nat, name: seq<byte>) returns (rc: int)
      requires Valid() && di < MAX_INODES
      modifies this`sb, this`sbDirty, this`bitmapDirty, this`inodesDirty, inodes, bitmap, disk, bufRw
      ensures Valid() && (State(), rc) == S.AddEntry(old(State()), di, child, name, 0)
    {
      hide S.AddEntry, S.FillEntry, S.BitmapAlloc, S.Shape;
      ghost var goal := S.AddEntry(State(), di, child, name, 0);
      for k := 0 to DIRECT
        invariant Valid() && goal == S.AddEntry(State(), di, child, name, k)
      {
        AddEntryStep(State(), di, child, name, k);
        var ok := OpenBlock(di, k);
        if !ok {
          return -1;
        }
        ok := FillEntry(di, k, child, name);
        if ok {
          return 0;
        }
      }
      AddEntryEnd(State(), di, child, name);
      return -1;
    }

    /** bfs_create (a file, mode 0644) and bfs_mkdir (a directory, mode 0755). */
    method Make(di: nat, name: seq<byte>, kind: byte, perm: nat) returns (rc: int)
      requires Valid() && di < MAX_INODES && perm < U16
      modifies this, inodes, bitmap, disk, bufRw
      ensures Valid() && (State(), rc) == S.Make(old(State()), di, name, kind, perm)
    {
      var ni := AllocInode();
      if ni < 0 {
        return -1;
      }
      ghost var s1 := State();
      inodes[ni] := inodes[ni].(kind := kind, perm := perm, size := 0, name := CopyStr(inodes[ni].name, name));
      inodesDirty := true;
      assert inodes[..] == S.PutNode(s1.inodes, ni, inodes[ni]);
      var ignored := AddEntry(di, ni, name);
      Sync();
      return 0;
    }

    /** bfs_create. */
    method Create(di: nat, name: seq<byte>) returns (rc: int)
      requires Valid() && di < MAX_INODES
      modifies this, inodes, bitmap, disk, bufRw
      ensures Valid() && (State(), rc) == S.Create(old(State()), di, name)
    {
      rc := Make(di, name, FILE, 0x1A4);
    }

    /** bfs_mkdir. */
    method Mkdir(di: nat, name: seq<byte>) returns (rc: int)
      requires Valid() && di < MAX_INODES
      modifies this, inodes, bitmap, disk, bufRw
      ensures Valid() && (State(), rc) == S.Mkdir(old(State()), di, name)
    {
      rc := Make(di, name, DIR, 0x1ED);
    }

    /** Names in a directory end inside their field; bcmp would otherwise run past it. */
    ghost predicate Terminated(i: nat)
      requires Valid() && i < MAX_INODES
      reads this, inodes, bitmap, disk
    {
      forall q: nat | S.Used(State(), i, q) :: 0 in S.SlotName(State(), i, q)
    }

    /** bfs_finddir; whether kmalloc finds room for the node is up to the caller. */
    method Finddir(ino: int, name: seq<byte>, heapFull: bool) returns (node: Option<S.VNode>)
      requires Valid() && (0 < ino < MAX_INODES && inodes[ino].kind == DIR ==> Terminated(ino))
      modifies bufFind
      ensures Valid() && State() == old(State()) && node == S.FindNode(State(), ino, name, heapFull)
    {
      hide S.Finddir;
      var ci := FindInode(ino, name);
      if ci == 0 || heapFull {
        return None;
      }
      var field := CopyStr(Zeros(128), CStr(inodes[ci].name));
      return Some(S.VNode(field, ci, inodes[ci].size, inodes[ci].kind == DIR));
    }

    /** The search of bfs_finddir: the inode number found, 0 for none. */
    method FindInode(ino: int, name: seq<byte>) returns (ci: nat)
      requires Valid() && (0 < ino < MAX_INODES && inodes[ino].kind == DIR ==> Terminated(ino))
      modifies bufFind
      ensures Valid() && State() == old(State()) && ci == S.Finddir(State(), ino, name)
    {
      hide S.FindSlot, S.SlotIno, S.Shape;
      if ino <= 0 || ino >= MAX_INODES || inodes[ino].kind != DIR {
        return 0;
      }
      ghost var st := State();
      for b := 0 to DIRECT
        invariant Valid() && State() == st
        invariant name != [] ==> S.FindSlot(st, ino, name, 0) == S.FindSlot(st, ino, name, PER_BLOCK * b)
      {
        FindSlotBlock(st, ino, name, b);
        Pointers(ino);
        if inodes[ino].blocks[b] == 0 {
          return 0;
        }
        ReadBlock(inodes[ino].blocks[b], bufFind);
        var e := FindEntry(bufFind, name, true);
        if e < PER_BLOCK {
          var found, _ := EntryOf(bufFind, e);
          return if found < MAX_INODES then found else 0;
        }
      }
      FindSlotEnd(st, ino, name);
      return 0;
    }

    /** The inner loop of bfs_finddir (which skips entries with an empty name) and of bfs_unlink. */
    method FindEntry(buf: array<byte>, name: seq<byte>, skipEmpty: bool) returns (e: nat)
      requires buf.Length == BLOCK
      ensures e == if skipEmpty && name == [] then PER_BLOCK else FirstNamed(buf[..], name, 0)
    {
      hide S.EntryIno, S.EntryName, CStr;
      for i := 0 to PER_BLOCK
        invariant (skipEmpty && name == []) || FirstNamed(buf[..], name, 0) == FirstNamed(buf[..], name, i)
      {
        var eIno, eName := EntryOf(buf, i);
        if eIno == 0 || (skipEmpty && eName[0] == 0) {
          continue;
        }
        if CStr(eName) == name {
          return i;
        }
      }
      return PER_BLOCK;
    }

    method EntryOf(buf: array<byte>, e: nat) returns (ino: nat, name: seq<byte>)
      requires buf.Length == BLOCK && e < PER_BLOCK
      ensures ino == S.EntryIno(buf[..], e) && name == S.EntryName(buf[..], e)
    {
      ino := GetU32(buf[DIRENT * e..DIRENT * e + 4]);
      name := buf[DIRENT * e + 4..DIRENT * e + DIRENT];
      assert buf[..][DIRENT * e..DIRENT * e + 4] == buf[DIRENT * e..DIRENT * e + 4];
    }

    /** Give back every block the inode points to. */
    method FreePointers(ci: nat)
      requires Valid() && ci < MAX_INODES
      modifies this`sb, this`sbDirty, this`bitmapDirty, bitmap
      ensures Valid() && (forall k | 0 <= k < |inodes[ci].blocks| :: inodes[ci].blocks[k] < 8 * BITMAP_BYTES)
      ensures State() == S.FreeBlocks(old(State()), inodes[ci].blocks)
    {
      hide S.BitmapFree;
      ghost var st, ptrs := State(), inodes[ci].blocks;
      assert forall p | 0 <= p < DIRECT :: ptrs[p] == S.Ptr(st.inodes, ci, p);
      assert ptrs[0..] == ptrs;
      for p := 0 to DIRECT
        invariant Valid() && State().data == st.data
        invariant S.FreeBlocks(State(), ptrs[p..]) == S.FreeBlocks(st, ptrs)
      {
        assert ptrs[p..][0] == ptrs[p] && ptrs[p..][1..] == ptrs[p + 1..];
        if inodes[ci].blocks[p] != 0 {
          BitmapFree(inodes[ci].blocks[p]);
          FreedShape(st, ptrs[p]);
        }
      }
    }

    /** Give back the child's blocks and clear its inode. */
    method Release(ci: nat)
      requires Valid() && ci < MAX_INODES
      modifies this`sb, this`sbDirty, this`inodesDirty, this`bitmapDirty, inodes, bitmap
      ensures Valid() && State() == S.Release(old(State()), ci)
    {
      hide S.FreeBlocks;
      Pointers(ci);
      FreePointers(ci);
      inodes[ci] := ZeroInode();
      sb := sb.(freeInodes := S.Inc(sb.freeInodes));
      sbDirty, inodesDirty := true, true;
      assert inodes[..] == S.ClearNode(old(inodes[..]), ci);
    }

    /** The effect of bfs_unlink once entry e of the block image in buf_rw has been chosen. */
    method RemoveEntry(di: nat, b: nat, e: nat)
      requires Valid() && di < MAX_INODES && b < DIRECT && e < PER_BLOCK && BlockCount(disk.Length) > 0
      requires S.EntryIno(bufRw[..], e) < MAX_INODES
      modifies this, inodes, bitmap, disk, bufRw
      ensures Valid()
      ensures var image := old(bufRw[..]);
              var s1 := S.Release(old(State()), S.EntryIno(image, e));
              State() == S.Sync(s1.(data := s1.data[S.Ptr(s1.inodes, di, b) :=
                                      S.PutEntry(image, e, 0, [0] + S.EntryName(image, e)[1..])]))
    {
      hide S.Release, S.Sync, S.PutEntry, S.EntryName, S.EntryIno;
      var ci, eName := EntryOf(bufRw, e);
      Release(ci);
      StoreEntry(e, 0, [0] + eName[1..]);
      assert S.Ptr(inodes[..], di, b) == inodes[di].blocks[b];
      WriteBlock(inodes[di].blocks[b], bufRw);
      Sync();
    }

    /** bfs_unlink. */
    method Unlink(di: nat, name: seq<byte>) returns (rc: int)
      requires Valid() && di < MAX_INODES && Terminated(di)
      requires forall q | 0 <= q < MAX_SLOTS && S.Used(State(), di, q) :: S.SlotIno(State(), di, q) < MAX_INODES
      modifies this, inodes, bitmap, disk, bufRw
      ensures Valid() && (State(), rc) == S.Unlink(old(State()), di, name)
    {
      hide S.FindSlot, S.SlotIno, S.SlotName, S.Release, S.Sync, S.PutEntry, S.EntryName, S.EntryIno, S.Unlink;
      ghost var st := State();
      for b := 0 to DIRECT
        invariant Valid() && State() == st
        invariant S.FindSlot(st, di, name, 0) == S.FindSlot(st, di, name, PER_BLOCK * b)
      {
        FindSlotBlock(st, di, name, b);
        if inodes[di].blocks[b] == 0 {
          UnlinkMissing(st, di, name);
          return -1;
        }
        ReadBlock(inodes[di].blocks[b], bufRw);
        var e := FindEntry(bufRw, name, false);
        if e < PER_BLOCK {
          ghost var q := PER_BLOCK * b + e;
          assert q / PER_BLOCK == b && q % PER_BLOCK == e && S.FindSlot(st, di, name, 0) == q;
          RemoveEntry(di, b, e);
          UnlinkFound(st, di, name, q);
          return 0;
        }
      }
      FindSlotEnd(st, di, name);
      UnlinkMissing(st, di, name);
      return -1;
    }

    // -------------------------------------------------------------- format

    method Format(volume: seq<byte>)
      requires Arrays() && disk.Length < U32 && BlockCount(disk.Length) <= MAX_BLOCKS
      modifies this, inodes, bitmap, disk
      ensures Valid() && State() == S.Format(old(State()), disk.Length, volume)
    {
      var total := (disk.Length - DATA_START) / SECS_PER_BLOCK;
      sb := Super(MAGIC, VERSION, total, total, MAX_INODES, MAX_INODES - 1, S.ROOT, 0,
                  CopyStr(Zeros(32), volume), Zeros(452));
      ghost var super := sb;
      for i := 0 to MAX_INODES
        invariant forall j | 0 <= j < i :: inodes[j] == ZeroInode()
        invariant disk[..] == old(disk[..]) && sb == super
      {
        inodes[i] := ZeroInode();
      }
      for i := 0 to BITMAP_BYTES
        invariant forall j | 0 <= j < i :: bitmap[j] == 0
        invariant forall j | 0 <= j < MAX_INODES :: inodes[j] == ZeroInode()
        invariant disk[..] == old(disk[..]) && sb == super
      {
        bitmap[i] := 0;
      }
      inodes[S.ROOT] := inodes[S.ROOT].(kind := DIR, perm := 0x1ED, name := CopyStr(inodes[S.ROOT].name, [0x2F]));
      sbDirty, inodesDirty, bitmapDirty := true, true, true;
      FormatState(State(), old(State()), disk.Length, volume);
      Sync();
    }
  }

  // ---------------------------------------------------------------- single turns of the loops

  lemma ReadFromStep(s: S.Fs, ino: nat, pos: nat, n: nat, out: seq<byte>)
    requires S.Shape(s) && ino < MAX_INODES && n > 0
    ensures var (bi, bo) := (pos / BLOCK, pos % BLOCK);
            var tc := Min(BLOCK - bo, n);
            if bi >= DIRECT || S.Ptr(s.inodes, ino, bi) == 0 then out + S.ReadFrom(s, ino, pos, n) == out
            else out + S.ReadFrom(s, ino, pos, n) ==
                 (out + s.data[S.Ptr(s.inodes, ino, bi)][bo..bo + tc]) + S.ReadFrom(s, ino, pos + tc, n - tc)
  {
    var (bi, bo) := (pos / BLOCK, pos % BLOCK);
    var tc := Min(BLOCK - bo, n);
    if bi < DIRECT && S.Ptr(s.inodes, ino, bi) != 0 {
      var piece := s.data[S.Ptr(s.inodes, ino, bi)][bo..bo + tc];
      var rest := S.ReadFrom(s, ino, pos + tc, n - tc);
      assert S.ReadFrom(s, ino, pos, n) == piece + rest;
      hide S.ReadFrom, S.Shape;
      assert out + (piece + rest) == (out + piece) + rest;
    } else {
      assert out + [] == out;
    }
  }

  lemma ReadFromEnd(s: S.Fs, ino: nat, pos: nat, out: seq<byte>)
    requires S.Shape(s) && ino < MAX_INODES
    ensures out + S.ReadFrom(s, ino, pos, 0) == out
  {
    assert S.ReadFrom(s, ino, pos, 0) == [];
  }

  lemma AddEntryStep(s: S.Fs, di: nat, child: nat, name: seq<byte>, k: nat)
    requires S.Shape(s) && di < MAX_INODES && k < DIRECT
    ensures S.AddEntry(s, di, child, name, k) ==
            if S.Ptr(s.inodes, di, k) != 0 then
              S.FillEntry(s, di, k, s.data[S.Ptr(s.inodes, di, k)], child, name)
            else
              var (s1, nb) := S.BitmapAlloc(s);
              if nb < 0 then (s, -1) else
                var s2 := s1.(inodes := S.SetPtr(s1.inodes, di, k, nb), inodesDirty := true);
                S.FillEntry(s2, di, k, Zeros(BLOCK), child, name)
  {
    hide S.FillEntry;
  }

  lemma AddEntryEnd(s: S.Fs, di: nat, child: nat, name: seq<byte>)
    requires S.Shape(s) && di < MAX_INODES
    ensures S.AddEntry(s, di, child, name, DIRECT) == (s, -1)
  {
  }

  lemma FreedShape(s: S.Fs, b: nat)
    requires S.Shape(s) && b < 8 * BITMAP_BYTES
    ensures (S.BitmapFree(s, b).inodes, S.BitmapFree(s, b).data) == (s.inodes, s.data)
  {
  }

  /** The first entry at or after e of a block that is in use and has this name. */
  function FirstNamed(b: S.Block, name: seq<byte>, e: nat): (r: nat)
    requires e <= PER_BLOCK
    ensures e <= r <= PER_BLOCK
    decreases PER_BLOCK - e
  {
    if e == PER_BLOCK || (S.EntryIno(b, e) != 0 && CStr(S.EntryName(b, e)) == name) then e
    else FirstNamed(b, name, e + 1)
  }

  lemma FindSlotStep(s: S.Fs, i: nat, name: seq<byte>, b: nat, e: nat)
    requires S.Shape(s) && i < MAX_INODES && b < DIRECT && e < PER_BLOCK && S.Ptr(s.inodes, i, b) != 0
    ensures var blk, q := s.data[S.Ptr(s.inodes, i, b)], PER_BLOCK * b + e;
            S.FindSlot(s, i, name, q) ==
            if S.EntryIno(blk, e) != 0 && CStr(S.EntryName(blk, e)) == name then q else S.FindSlot(s, i, name, q + 1)
  {
    var q := PER_BLOCK * b + e;
    assert q / PER_BLOCK == b && q % PER_BLOCK == e;
    hide S.EntryIno, S.EntryName, CStr;
  }

  lemma {:induction false} FindSlotFrom(s: S.Fs, i: nat, name: seq<byte>, b: nat, e: nat)
    requires S.Shape(s) && i < MAX_INODES && b < DIRECT && e <= PER_BLOCK && S.Ptr(s.inodes, i, b) != 0
    ensures var blk := s.data[S.Ptr(s.inodes, i, b)];
            var f := FirstNamed(blk, name, e);
            S.FindSlot(s, i, name, PER_BLOCK * b + e) ==
            if f < PER_BLOCK then PER_BLOCK * b + f else S.FindSlot(s, i, name, PER_BLOCK * (b + 1))
    decreases PER_BLOCK - e
  {
    hide S.EntryIno, S.EntryName, CStr, S.FindSlot, S.Shape;
    if e < PER_BLOCK {
      FindSlotStep(s, i, name, b, e);
      FindSlotFrom(s, i, name, b, e + 1);
    }
  }

  lemma FindSlotBlock(s: S.Fs, i: nat, name: seq<byte>, b: nat)
    requires S.Shape(s) && i < MAX_INODES && b < DIRECT
    ensures S.Ptr(s.inodes, i, b) == 0 ==> S.FindSlot(s, i, name, PER_BLOCK * b) == MAX_SLOTS
    ensures S.Ptr(s.inodes, i, b) != 0 ==>
              var blk := s.data[S.Ptr(s.inodes, i, b)];
              var f := FirstNamed(blk, name, 0);
              && S.FindSlot(s, i, name, PER_BLOCK * b) ==
                 (if f < PER_BLOCK then PER_BLOCK * b + f else S.FindSlot(s, i, name, PER_BLOCK * (b + 1)))
              && (f < PER_BLOCK ==> S.Used(s, i, PER_BLOCK * b + f)
                                    && S.SlotIno(s, i, PER_BLOCK * b + f) == S.EntryIno(blk, f))
  {
    hide S.EntryIno, S.EntryName, CStr;
    if S.Ptr(s.inodes, i, b) != 0 {
      hide S.FindSlot;
      FindSlotFrom(s, i, name, b, 0);
      var f := FirstNamed(s.data[S.Ptr(s.inodes, i, b)], name, 0);
      if f < PER_BLOCK { SlotPlace(b, f); }
    }
  }

  lemma SlotPlace(b: nat, f: nat)
    requires f < PER_BLOCK
    ensures (PER_BLOCK * b + f) / PER_BLOCK == b && (PER_BLOCK * b + f) % PER_BLOCK == f
  {}

  lemma FindSlotEnd(s: S.Fs, i: nat, name: seq<byte>)
    requires S.Shape(s) && i < MAX_INODES
    ensures S.FindSlot(s, i, name, PER_BLOCK * DIRECT) == MAX_SLOTS
  {
  }

  lemma UnlinkMissing(s: S.Fs, di: nat, name: seq<byte>)
    requires S.Shape(s) && di < MAX_INODES && S.FindSlot(s, di, name, 0) == MAX_SLOTS
    requires forall q | 0 <= q < MAX_SLOTS && S.Used(s, di, q) :: S.SlotIno(s, di, q) < MAX_INODES
    ensures S.Unlink(s, di, name) == (s, -1)
  {
    hide S.FindSlot, S.Release;
  }

  lemma UnlinkFound(s: S.Fs, di: nat, name: seq<byte>, q: nat)
    requires S.Shape(s) && di < MAX_INODES && q == S.FindSlot(s, di, name, 0) < MAX_SLOTS
    requires forall q | 0 <= q < MAX_SLOTS && S.Used(s, di, q) :: S.SlotIno(s, di, q) < MAX_INODES
    ensures var image, e := s.data[S.Ptr(s.inodes, di, q / PER_BLOCK)], q % PER_BLOCK;
            var s1 := S.Release(s, S.EntryIno(image, e));
            var b := S.Ptr(s1.inodes, di, q / PER_BLOCK);
            S.Unlink(s, di, name) ==
            (S.Sync(s1.(data := s1.data[b := S.PutEntry(image, e, 0, [0] + S.EntryName(image, e)[1..])])), 0)
  {
    hide S.FindSlot, S.PutEntry, S.EntryName, S.EntryIno, S.Sync, S.Release;
  }

  /** The memory image that stackfs_format syncs. */
  lemma FormatState(s: S.Fs, before: S.Fs, sectors: nat, volume: seq<byte>)
    requires |before.meta| == DATA_START && DATA_START <= sectors < U32 && BlockCount(sectors) <= MAX_BLOCKS
    requires |before.data| == BlockCount(sectors) && s.meta == before.meta && s.data == before.data
    requires s.sb == Super(MAGIC, VERSION, BlockCount(sectors), BlockCount(sectors), MAX_INODES, MAX_INODES - 1, S.ROOT, 0,
                           CopyStr(Zeros(32), volume), Zeros(452))
    requires |s.inodes| == MAX_INODES && forall i | 0 <= i < MAX_INODES && i != S.ROOT :: s.inodes[i] == ZeroInode()
    requires s.inodes[S.ROOT] == ZeroInode().(kind := DIR, perm := 0x1ED, name := CopyStr(Zeros(NAME_MAX), [0x2F]))
    requires |s.bitmap| == BITMAP_BYTES && forall i | 0 <= i < BITMAP_BYTES :: s.bitmap[i] == 0
    requires s.sbDirty && s.inodesDirty && s.bitmapDirty
    ensures S.Shape(s) && S.Sync(s) == S.Format(before, sectors, volume)
  {
    var root := ZeroInode().(kind := DIR, perm := 0x1ED, name := CopyStr(Zeros(NAME_MAX), [0x2F]));
    assert s.inodes == seq(MAX_INODES, i => if i == S.ROOT then root else ZeroInode());
    assert s.bitmap == Zeros(BITMAP_BYTES);
    hide S.Sync, CopyStr;
  }
}

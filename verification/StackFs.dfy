/** StackFS operations (kernel/fs/stackfs.c) on a value of the whole mounted state:
    the in-memory superblock, inode table and bitmap, the metadata sectors and data
    blocks of the disk, and the three dirty flags. Module StackFsDisk carries the
    same operations out in place. */
module StackFs {
  import opened Bytes
  import opened StackFsLayout

  type Block = b: seq<byte> | |b| == BLOCK witness Zeros(BLOCK)

  datatype Fs = Fs(
    sb: Super, inodes: seq<Inode>, bitmap: seq<byte>, meta: seq<Sector>, data: seq<Block>,
    sbDirty: bool, inodesDirty: bool, bitmapDirty: bool)

  const ROOT: nat := 1

  /** Direct pointer k of inode i; 0 means that there is no block. */
  function Ptr(t: seq<Inode>, i: nat, k: nat): nat {
    if i < |t| && k < |t[i].blocks| then t[i].blocks[k] else 0
  }

  /** What the C types and array bounds give, plus pointers inside the disk. */
  ghost predicate Shape(s: Fs) {
    && SuperFits(s.sb)
    && |s.inodes| == MAX_INODES && TableFits(s.inodes)
    && |s.bitmap| == BITMAP_BYTES && |s.meta| == DATA_START
    && s.sb.totalBlocks <= |s.data| && s.sb.totalBlocks <= MAX_BLOCKS
    && (forall i: nat, k: nat :: Ptr(s.inodes, i, k) < Max(1, s.sb.totalBlocks))
  }

  // ---------------------------------------------------------------- bitmap

  predicate Taken(bitmap: seq<byte>, b: nat)
    requires b < 8 * |bitmap|
  {
    Bit(bitmap[b / 8], b % 8)
  }

  /** Block b is bit b % 8, counted from the lowest, of byte b / 8. */
  lemma BitmapByte(bitmap: seq<byte>, b: nat)
    requires b < 8 * |bitmap|
    ensures Taken(bitmap, b) <==> bitmap[b / 8] / Pow2(b % 8) % 2 == 1
  {
    BitIsDigit(bitmap[b / 8], b % 8);
  }

  function SetByte(v: byte, i: nat): byte
    requires i < 8
  {
    PowersOfTwo();
    SetBitFits(v, i, 8);
    SetBit(v, i)
  }

  function ClearByte(v: byte, i: nat): byte { ClearBit(v, i) }

  function Mark(bitmap: seq<byte>, b: nat): (r: seq<byte>)
    requires b < 8 * |bitmap|
    ensures |r| == |bitmap|
    ensures forall c | 0 <= c < 8 * |bitmap| :: Taken(r, c) <==> c == b || Taken(bitmap, c)
  {
    var r := bitmap[b / 8 := SetByte(bitmap[b / 8], b % 8)];
    assert forall c | 0 <= c < 8 * |bitmap| :: Taken(r, c) <==> c == b || Taken(bitmap, c) by {
      forall c | 0 <= c < 8 * |bitmap| ensures Taken(r, c) <==> c == b || Taken(bitmap, c) {
        SetBitAt(bitmap[b / 8], b % 8, c % 8);
      }
    }
    r
  }

  function Unmark(bitmap: seq<byte>, b: nat): (r: seq<byte>)
    requires b < 8 * |bitmap|
    ensures |r| == |bitmap|
    ensures forall c | 0 <= c < 8 * |bitmap| :: Taken(r, c) <==> c != b && Taken(bitmap, c)
  {
    var r := bitmap[b / 8 := ClearByte(bitmap[b / 8], b % 8)];
    assert forall c | 0 <= c < 8 * |bitmap| :: Taken(r, c) <==> c != b && Taken(bitmap, c) by {
      forall c | 0 <= c < 8 * |bitmap| ensures Taken(r, c) <==> c != b && Taken(bitmap, c) {
        ClearBitAt(bitmap[b / 8], b % 8, c % 8);
      }
    }
    r
  }

  /** The lowest clear bit in i..total, or -1. */
  function FirstFree(bitmap: seq<byte>, total: nat, i: nat): (r: int)
    requires i <= total <= 8 * |bitmap|
    ensures r == -1 || i <= r < total
    ensures r >= 0 ==> !Taken(bitmap, r) && forall c | i <= c < r :: Taken(bitmap, c)
    ensures r == -1 ==> forall c | i <= c < total :: Taken(bitmap, c)
    decreases total - i
  {
    if i == total then -1
    else if !Taken(bitmap, i) then i
    else FirstFree(bitmap, total, i + 1)
  }

  function Dec(v: nat): nat { (v + U32 - 1) % U32 }
  function Inc(v: nat): nat { (v + 1) % U32 }

  function BitmapAlloc(s: Fs): (r: (Fs, int))
    requires s.sb.totalBlocks <= 8 * |s.bitmap|
  {
    var b := FirstFree(s.bitmap, s.sb.totalBlocks, 0);
    if b < 0 then (s, -1) else
      (s.(bitmap := Mark(s.bitmap, b), sb := s.sb.(freeBlocks := Dec(s.sb.freeBlocks)),
          bitmapDirty := true, sbDirty := true), b)
  }

  function BitmapFree(s: Fs, b: nat): (r: Fs)
    requires b < 8 * |s.bitmap|
  {
    s.(bitmap := Unmark(s.bitmap, b), sb := s.sb.(freeBlocks := Inc(s.sb.freeBlocks)),
       bitmapDirty := true, sbDirty := true)
  }

  // ---------------------------------------------------------------- sync and mount

  function SyncInodes(s: Fs): (r: Fs)
    requires Shape(s)
    ensures Shape(r)
  {
    if s.inodesDirty then
      s.(meta := s.meta[..INODE_START] + Cut(PutTable(s.inodes)) + s.meta[BITMAP_START..], inodesDirty := false)
    else s
  }

  function SyncBitmap(s: Fs): (r: Fs)
    requires Shape(s)
    ensures Shape(r)
  {
    if s.bitmapDirty then s.(meta := s.meta[..BITMAP_START] + Cut(s.bitmap), bitmapDirty := false) else s
  }

  function SyncSuper(s: Fs): (r: Fs)
    requires Shape(s)
    ensures Shape(r)
  {
    if s.sbDirty then s.(meta := s.meta[SB_SECTOR := PutSuper(s.sb)], sbDirty := false) else s
  }

  function Sync(s: Fs): (r: Fs)
    requires Shape(s)
    ensures Shape(r)
  {
    SyncSuper(SyncBitmap(SyncInodes(s)))
  }

  /** stackfs_mount: `before` is whatever the static variables held. None is a bad magic number,
      after which the superblock has nevertheless been overwritten. */
  function Mount(before: Fs): (r: (Fs, bool))
    requires |before.meta| == DATA_START && |before.sb.pad| == 452
  {
    var s := before.(sb := GetSuper(before.meta[SB_SECTOR], before.sb));
    if s.sb.magic != MAGIC then (s, false) else
      (s.(inodes := GetTable(Join(s.meta[INODE_START..BITMAP_START])), bitmap := Join(s.meta[BITMAP_START..]),
          sbDirty := false, inodesDirty := false, bitmapDirty := false), true)
  }

  // ---------------------------------------------------------------- files

  /** The loop of bfs_read: n bytes still wanted from position pos. */
  function ReadFrom(s: Fs, ino: nat, pos: nat, n: nat): (r: seq<byte>)
    requires Shape(s) && ino < MAX_INODES
    ensures |r| <= n
    decreases n
  {
    var bi, bo := pos / BLOCK, pos % BLOCK;
    var tc := Min(BLOCK - bo, n);
    if n == 0 || bi >= DIRECT || Ptr(s.inodes, ino, bi) == 0 then []
    else s.data[Ptr(s.inodes, ino, bi)][bo..bo + tc] + ReadFrom(s, ino, pos + tc, n - tc)
  }

  /** How many bytes bfs_read sets out to read before the end of the file is reached: the request is cut
      when offset + n passes the size, a comparison made on the 32-bit sum. */
  function Wanted(size: nat, offset: nat, n: nat): (w: nat)
    requires offset < size
  {
    if (offset + n) % U32 > size then size - offset else n
  }

  /** bfs_read: the number is -1 for the error return. */
  function Read(s: Fs, ino: int, offset: nat, n: nat): (r: (int, seq<byte>))
    requires Shape(s)
    ensures r.0 == -1 || r.0 == |r.1|
  {
    if ino <= 0 || ino >= MAX_INODES || s.inodes[ino].kind != FILE then (-1, [])
    else if offset >= s.inodes[ino].size then (0, [])
    else
      var out := ReadFrom(s, ino, offset, Wanted(s.inodes[ino].size, offset, n));
      (|out|, out)
  }

  function SetPtr(t: seq<Inode>, i: nat, k: nat, b: nat): (r: seq<Inode>)
    requires i < |t| && k < |t[i].blocks|
    ensures |r| == |t|
    ensures forall j: nat, l: nat :: Ptr(r, j, l) == if j == i && l == k then b else Ptr(t, j, l)
  {
    t[i := t[i].(blocks := t[i].blocks[k := b])]
  }

  /** Replace inode i by one with the same pointers. */
  function PutNode(t: seq<Inode>, i: nat, node: Inode): (r: seq<Inode>)
    requires i < |t| && node.blocks == t[i].blocks
    ensures |r| == |t|
    ensures forall j: nat, l: nat :: Ptr(r, j, l) == Ptr(t, j, l)
  {
    t[i := node]
  }

  function Splice(base: Block, at: nat, chunk: seq<byte>): (r: Block)
    requires at + |chunk| <= BLOCK
  {
    base[..at] + chunk + base[at + |chunk|..]
  }

  /** One turn of the bfs_write loop: put a chunk that stays inside one block at pos. The flag is
      false when no block could be allocated. */
  function PutChunk(s: Fs, ino: nat, pos: nat, chunk: seq<byte>): (r: (Fs, bool))
    requires Shape(s) && ino < MAX_INODES && pos / BLOCK < DIRECT && pos % BLOCK + |chunk| <= BLOCK
    ensures Shape(r.0)
  {
    var bi := pos / BLOCK;
    if Ptr(s.inodes, ino, bi) == 0 then
      var (s1, nb) := BitmapAlloc(s);
      if nb < 0 then (s, false) else
        var s2 := s1.(inodes := SetPtr(s1.inodes, ino, bi, nb));
        (s2.(data := s2.data[nb := Splice(Zeros(BLOCK), pos % BLOCK, chunk)]), true)
    else
      var b := Ptr(s.inodes, ino, bi);
      (s.(data := s.data[b := Splice(s.data[b], pos % BLOCK, chunk)]), true)
  }

  /** The bytes of buf that the next turn of the loop writes. */
  function ChunkAt(pos: nat, buf: seq<byte>): (n: nat)
    ensures n <= |buf| && pos % BLOCK + n <= BLOCK
    ensures buf != [] ==> n > 0
    ensures n < |buf| ==> (pos + n) % BLOCK == 0
  {
    Min(BLOCK - pos % BLOCK, |buf|)
  }

  /** The loop of bfs_write: buf is still to be written at pos; the number is how much was. */
  function WriteFrom(s: Fs, ino: nat, pos: nat, buf: seq<byte>): (r: (Fs, nat))
    requires Shape(s) && ino < MAX_INODES
    ensures Shape(r.0) && r.1 <= |buf| && (r.1 == 0 || pos + r.1 <= MAX_FILE)
    decreases |buf|
  {
    if buf == [] || pos / BLOCK >= DIRECT then (s, 0) else
      var n := ChunkAt(pos, buf);
      var (s1, ok) := PutChunk(s, ino, pos, buf[..n]);
      if !ok then (s1, 0) else
        var (s2, done) := WriteFrom(s1, ino, pos + n, buf[n..]);
        (s2, n + done)
  }

  lemma WriteFromStep(s: Fs, ino: nat, pos: nat, buf: seq<byte>, n: nat)
    requires Shape(s) && ino < MAX_INODES && buf != [] && pos / BLOCK < DIRECT && n == ChunkAt(pos, buf)
    ensures var (s1, ok) := PutChunk(s, ino, pos, buf[..n]);
            WriteFrom(s, ino, pos, buf) ==
            if !ok then (s1, 0)
            else (WriteFrom(s1, ino, pos + n, buf[n..]).0, n + WriteFrom(s1, ino, pos + n, buf[n..]).1)
  {
    hide PutChunk, Shape;
  }

  lemma WriteFromEnd(s: Fs, ino: nat, pos: nat, buf: seq<byte>)
    requires Shape(s) && ino < MAX_INODES && (buf == [] || pos / BLOCK >= DIRECT)
    ensures WriteFrom(s, ino, pos, buf) == (s, 0)
  {
    hide PutChunk, Shape;
  }

  /** bfs_write's size update; the inode table is marked dirty only when the file grows. */
  function Extend(s: Fs, ino: nat, end: nat): (r: Fs)
    requires Shape(s) && ino < MAX_INODES && end < U32
    ensures Shape(r)
  {
    if end > s.inodes[ino].size
    then s.(inodes := PutNode(s.inodes, ino, s.inodes[ino].(size := end)), inodesDirty := true)
    else s
  }

  function Write(s: Fs, ino: int, offset: nat, buf: seq<byte>): (r: (Fs, int))
    requires Shape(s) && offset < U32
    ensures Shape(r.0) && r.1 <= |buf|
  {
    if ino <= 0 || ino >= MAX_INODES || s.inodes[ino].kind != FILE then (s, -1) else
      var (s1, done) := WriteFrom(s, ino, offset, buf);
      (Sync(Extend(s1, ino, offset + done)), done as int)
  }

  // ---------------------------------------------------------------- directories

  function EntryIno(b: Block, e: nat): (r: nat)
    requires e < PER_BLOCK
    ensures r < U32
  {
    GetU32(b[DIRENT * e..DIRENT * e + 4])
  }

  function EntryName(b: Block, e: nat): (r: seq<byte>)
    requires e < PER_BLOCK
    ensures |r| == NAME_MAX
  {
    b[DIRENT * e + 4..DIRENT * e + DIRENT]
  }

  function PutEntry(b: Block, e: nat, ino: nat, name: seq<byte>): (r: Block)
    requires e < PER_BLOCK && |name| == NAME_MAX
  {
    b[..DIRENT * e] + PutU32(ino) + name + b[DIRENT * e + DIRENT..]
  }

  function FirstFreeInode(t: seq<Inode>, i: nat): (r: int)
    requires i <= |t|
    ensures r == -1 || i <= r < |t|
    ensures r >= 0 ==> t[r].kind == FREE && forall j | i <= j < r :: t[j].kind != FREE
    ensures r == -1 ==> forall j | i <= j < |t| :: t[j].kind != FREE
    decreases |t| - i
  {
    if i == |t| then -1 else if t[i].kind == FREE then i else FirstFreeInode(t, i + 1)
  }

  /** alloc_inode takes the slot's word for it; the caller fills the slot in. */
  function AllocInode(s: Fs): (r: (Fs, int))
    requires |s.inodes| == MAX_INODES
  {
    var i := FirstFreeInode(s.inodes, 1);
    if i < 0 then (s, -1) else
      (s.(sb := s.sb.(freeInodes := Dec(s.sb.freeInodes)), sbDirty := true, inodesDirty := true), i)
  }

  function FirstEmptyEntry(b: Block, e: nat): (r: nat)
    requires e <= PER_BLOCK
    ensures e <= r <= PER_BLOCK
    ensures r < PER_BLOCK ==> EntryIno(b, r) == 0
    ensures forall f | e <= f < r :: EntryIno(b, f) != 0
    decreases PER_BLOCK - e
  {
    if e == PER_BLOCK || EntryIno(b, e) == 0 then e else FirstEmptyEntry(b, e + 1)
  }

  /** dir_add_entry from block k on. */
  function AddEntry(s: Fs, di: nat, child: nat, name: seq<byte>, k: nat): (r: (Fs, int))
    requires Shape(s) && di < MAX_INODES && k <= DIRECT
    ensures Shape(r.0)
    decreases DIRECT - k
  {
    if k == DIRECT then (s, -1)
    else if Ptr(s.inodes, di, k) == 0 then
      var (s1, nb) := BitmapAlloc(s);
      if nb < 0 then (s, -1) else
        var s2 := s1.(inodes := SetPtr(s1.inodes, di, k, nb), inodesDirty := true);
        FillEntry(s2, di, k, Zeros(BLOCK), child, name)
    else FillEntry(s, di, k, s.data[Ptr(s.inodes, di, k)], child, name)
  }

  /** The inner loop of dir_add_entry over the entries of one block image. */
  function FillEntry(s: Fs, di: nat, k: nat, b: Block, child: nat, name: seq<byte>): (r: (Fs, int))
    requires Shape(s) && di < MAX_INODES && k < DIRECT && |s.data| > 0
    ensures Shape(r.0)
    decreases DIRECT - k, 0
  {
    var e := FirstEmptyEntry(b, 0);
    if e < PER_BLOCK then
      var image := PutEntry(b, e, child, CopyStr(EntryName(b, e), name));
      (s.(data := s.data[Ptr(s.inodes, di, k) := image]), 0)
    else AddEntry(s, di, child, name, k + 1)
  }

  /** bfs_create and bfs_mkdir differ only in the type and permission bits they store. */
  function Make(s: Fs, di: nat, name: seq<byte>, kind: byte, perm: nat): (r: (Fs, int))
    requires Shape(s) && di < MAX_INODES && perm < U16
    ensures Shape(r.0)
  {
    var (s1, ni) := AllocInode(s);
    if ni < 0 then (s1, -1) else
      var node := s1.inodes[ni].(kind := kind, perm := perm, size := 0, name := CopyStr(s1.inodes[ni].name, name));
      var s2 := s1.(inodes := PutNode(s1.inodes, ni, node));
      (Sync(AddEntry(s2, di, ni, name, 0).0), 0)
  }

  function Create(s: Fs, di: nat, name: seq<byte>): (r: (Fs, int))
    requires Shape(s) && di < MAX_INODES
    ensures Shape(r.0)
  {
    Make(s, di, name, FILE, 0x1A4)
  }

  function Mkdir(s: Fs, di: nat, name: seq<byte>): (r: (Fs, int))
    requires Shape(s) && di < MAX_INODES
    ensures Shape(r.0)
  {
    Make(s, di, name, DIR, 0x1ED)
  }

  /** Entry slot q of inode i is entry q % 68 of its block q / 68. */
  predicate Used(s: Fs, i: nat, q: nat)
    requires Shape(s) && i < MAX_INODES
  {
    q < MAX_SLOTS && Ptr(s.inodes, i, q / PER_BLOCK) != 0
  }

  function SlotIno(s: Fs, i: nat, q: nat): nat
    requires Shape(s) && i < MAX_INODES && Used(s, i, q)
  {
    EntryIno(s.data[Ptr(s.inodes, i, q / PER_BLOCK)], q % PER_BLOCK)
  }

  function SlotName(s: Fs, i: nat, q: nat): (r: seq<byte>)
    requires Shape(s) && i < MAX_INODES && Used(s, i, q)
    ensures |r| == NAME_MAX
  {
    EntryName(s.data[Ptr(s.inodes, i, q / PER_BLOCK)], q % PER_BLOCK)
  }

  /** The first used slot at or after q that holds an entry of this name; MAX_SLOTS if there is
      none before the first missing block. */
  function FindSlot(s: Fs, i: nat, name: seq<byte>, q: nat): (r: nat)
    requires Shape(s) && i < MAX_INODES && q <= MAX_SLOTS
    ensures q <= r <= MAX_SLOTS
    ensures r < MAX_SLOTS ==> Used(s, i, r) && SlotIno(s, i, r) != 0 && CStr(SlotName(s, i, r)) == name
    decreases MAX_SLOTS - q
  {
    if q == MAX_SLOTS || !Used(s, i, q) then MAX_SLOTS
    else if SlotIno(s, i, q) != 0 && CStr(SlotName(s, i, q)) == name then q
    else FindSlot(s, i, name, q + 1)
  }

  /** The inode number bfs_finddir finds, 0 for none. Entries with an empty name are skipped. */
  function Finddir(s: Fs, ino: int, name: seq<byte>): (r: nat)
    requires Shape(s)
    ensures r < MAX_INODES
  {
    if ino <= 0 || ino >= MAX_INODES || s.inodes[ino].kind != DIR || name == [] then 0 else
      var q := FindSlot(s, ino, name, 0);
      if q == MAX_SLOTS || SlotIno(s, ino, q) >= MAX_INODES then 0 else SlotIno(s, ino, q)
  }

  /** The node bfs_finddir fills in; its name field has 128 bytes. */
  datatype VNode = VNode(name: seq<byte>, inode: nat, size: nat, isDir: bool)

  /** bfs_finddir: the node for what it finds, None for NULL, which it also returns when the heap has no
      room for a node. */
  function FindNode(s: Fs, ino: int, name: seq<byte>, heapFull: bool): Option<VNode>
    requires Shape(s)
  {
    var ci := Finddir(s, ino, name);
    if ci == 0 || heapFull then None
    else Some(VNode(CopyStr(Zeros(128), CStr(s.inodes[ci].name)), ci, s.inodes[ci].size, s.inodes[ci].kind == DIR))
  }

  function FreeBlocks(s: Fs, ptrs: seq<nat>): (r: Fs)
    requires Shape(s) && forall k | 0 <= k < |ptrs| :: ptrs[k] < 8 * BITMAP_BYTES
    ensures Shape(r) && r.data == s.data && r.inodes == s.inodes
    decreases |ptrs|
  {
    if ptrs == [] then s
    else FreeBlocks(if ptrs[0] != 0 then BitmapFree(s, ptrs[0]) else s, ptrs[1..])
  }

  /** bfs_unlink gives back every block of the child and clears its inode. */
  function Release(s: Fs, ci: nat): (r: Fs)
    requires Shape(s) && ci < MAX_INODES
    ensures Shape(r) && r.data == s.data
  {
    assert forall p | 0 <= p < DIRECT :: s.inodes[ci].blocks[p] == Ptr(s.inodes, ci, p);
    var s1 := FreeBlocks(s, s.inodes[ci].blocks);
    s1.(inodes := ClearNode(s1.inodes, ci), sb := s1.sb.(freeInodes := Inc(s1.sb.freeInodes)),
        sbDirty := true, inodesDirty := true)
  }

  function ClearNode(t: seq<Inode>, i: nat): (r: seq<Inode>)
    requires i < |t|
    ensures |r| == |t|
    ensures forall j: nat, l: nat :: Ptr(r, j, l) == if j == i then 0 else Ptr(t, j, l)
  {
    t[i := ZeroInode()]
  }

  /** bfs_unlink. The C code indexes the inode table with the number found in the entry. */
  function Unlink(s: Fs, di: nat, name: seq<byte>): (r: (Fs, int))
    requires Shape(s) && di < MAX_INODES
    requires forall q | 0 <= q < MAX_SLOTS && Used(s, di, q) :: SlotIno(s, di, q) < MAX_INODES
    ensures Shape(r.0)
  {
    var q := FindSlot(s, di, name, 0);
    if q == MAX_SLOTS then (s, -1) else
      var image, e := s.data[Ptr(s.inodes, di, q / PER_BLOCK)], q % PER_BLOCK;
      var s1 := Release(s, SlotIno(s, di, q));
      var cleared := PutEntry(image, e, 0, [0] + EntryName(image, e)[1..]);
      (Sync(s1.(data := s1.data[Ptr(s1.inodes, di, q / PER_BLOCK) := cleared])), 0)
  }

  // ---------------------------------------------------------------- format

  /** stackfs_format on a disk of the given number of sectors; `before` supplies the old disk. */
  function Format(before: Fs, sectors: nat, volume: seq<byte>): (r: Fs)
    requires |before.meta| == DATA_START
    requires DATA_START <= sectors < U32 && (sectors - DATA_START) / SECS_PER_BLOCK <= MAX_BLOCKS
    requires |before.data| == (sectors - DATA_START) / SECS_PER_BLOCK
    ensures Shape(r)
  {
    var total := (sectors - DATA_START) / SECS_PER_BLOCK;
    var sb := Super(MAGIC, VERSION, total, total, MAX_INODES, MAX_INODES - 1, ROOT, 0,
                    CopyStr(Zeros(32), volume), Zeros(452));
    var root := ZeroInode().(kind := DIR, perm := 0x1ED, name := CopyStr(Zeros(NAME_MAX), [0x2F]));
    var t := seq(MAX_INODES, i => if i == ROOT then root else ZeroInode());
    Sync(Fs(sb, t, Zeros(BITMAP_BYTES), before.meta, before.data, true, true, true))
  }
}

/** On-disk structures of StackFS (kernel/fs/stackfs.h): the superblock, the inode
    table and directory entries, with their packed little-endian byte images. */
module StackFsLayout {
  import opened Bytes

  const MAGIC: nat := 0x57AC4B05
  const VERSION: nat := 1
  const SECTOR: nat := 512
  const BLOCK: nat := 4096
  const NAME_MAX: nat := 56
  const MAX_INODES: nat := 128
  const DIRECT: nat := 12
  const INODE_SIZE: nat := 120
  const SB_SECTOR: nat := 0
  const INODE_START: nat := 1
  const INODE_SECS: nat := 30
  const BITMAP_START: nat := 31
  const BITMAP_SECS: nat := 32
  const DATA_START: nat := 63
  const BITMAP_BYTES: nat := 16384
  const MAX_BLOCKS: nat := 131072
  const SECS_PER_BLOCK: nat := 8
  const MAX_FILE: nat := 49152
  const DIRENT: nat := 60
  const PER_BLOCK: nat := 68   // directory entries in one block
  const MAX_SLOTS: nat := 816  // directory entries in twelve blocks

  const FREE: byte := 0
  const FILE: byte := 1
  const DIR: byte := 2

  /** The packed C struct has 32 + 32 + 452 = 516 bytes although it is documented to fit one
      sector; only its first 512 bytes reach the disk. */
  datatype Super = Super(
    magic: nat, version: nat, totalBlocks: nat, freeBlocks: nat, totalInodes: nat, freeInodes: nat,
    rootInode: nat, created: nat, volume: seq<byte>, pad: seq<byte>)

  ghost predicate SuperFits(s: Super) {
    && s.magic < U32 && s.version < U32 && s.totalBlocks < U32 && s.freeBlocks < U32
    && s.totalInodes < U32 && s.freeInodes < U32 && s.rootInode < U32 && s.created < U32
    && |s.volume| == 32 && |s.pad| == 452
  }

  datatype Inode = Inode(
    kind: byte, pad: byte, perm: nat, size: nat, created: nat, modified: nat,
    blocks: seq<nat>, name: seq<byte>)

  ghost predicate InodeFits(i: Inode) {
    && i.perm < U16 && i.size < U32 && i.created < U32 && i.modified < U32
    && |i.blocks| == DIRECT && |i.name| == NAME_MAX
    && forall k | 0 <= k < DIRECT :: i.blocks[k] < U32
  }

  function Zeros(n: nat): (z: seq<byte>)
    ensures |z| == n && forall i | 0 <= i < n :: z[i] == 0
  {
    seq(n, _ => 0)
  }

  function NoBlocks(): (z: seq<nat>)
    ensures |z| == DIRECT && forall k | 0 <= k < DIRECT :: z[k] == 0
  {
    seq(DIRECT, _ => 0)
  }

  /** An inode whose bytes are all zero. */
  function ZeroInode(): (i: Inode)
    ensures InodeFits(i)
  {
    Inode(0, 0, 0, 0, 0, 0, NoBlocks(), Zeros(NAME_MAX))
  }

  // ---------------------------------------------------------------- byte images

  /** The sector written by save_sb_disk: the first 512 bytes of the struct. */
  function PutSuper(s: Super): (b: seq<byte>)
    requires |s.volume| == 32 && |s.pad| == 452
    ensures |b| == SECTOR
  {
    PutU32(s.magic) + PutU32(s.version) + PutU32(s.totalBlocks) + PutU32(s.freeBlocks)
    + PutU32(s.totalInodes) + PutU32(s.freeInodes) + PutU32(s.rootInode) + PutU32(s.created)
    + s.volume + s.pad[..448]
  }

  /** Reading that sector over the struct: the last four padding bytes keep their old value. */
  function GetSuper(b: seq<byte>, before: Super): (s: Super)
    requires |b| == SECTOR && |before.pad| == 452
    ensures SuperFits(s)
  {
    Super(GetU32(b[0..4]), GetU32(b[4..8]), GetU32(b[8..12]), GetU32(b[12..16]),
          GetU32(b[16..20]), GetU32(b[20..24]), GetU32(b[24..28]), GetU32(b[28..32]),
          b[32..64], b[64..] + before.pad[448..])
  }

  lemma SuperRoundTrip(s: Super, before: Super)
    requires SuperFits(s) && SuperFits(before)
    ensures GetSuper(PutSuper(s), before) == s.(pad := s.pad[..448] + before.pad[448..])
  {
    var b := PutSuper(s);
    assert b[0..4] == PutU32(s.magic) && b[4..8] == PutU32(s.version);
    assert b[8..12] == PutU32(s.totalBlocks) && b[12..16] == PutU32(s.freeBlocks);
    assert b[16..20] == PutU32(s.totalInodes) && b[20..24] == PutU32(s.freeInodes);
    assert b[24..28] == PutU32(s.rootInode) && b[28..32] == PutU32(s.created);
    assert b[32..64] == s.volume && b[64..] == s.pad[..448];
    U32RoundTrip(s.magic); U32RoundTrip(s.version); U32RoundTrip(s.totalBlocks); U32RoundTrip(s.freeBlocks);
    U32RoundTrip(s.totalInodes); U32RoundTrip(s.freeInodes); U32RoundTrip(s.rootInode); U32RoundTrip(s.created);
  }

  function PutWords(ws: seq<nat>): (b: seq<byte>)
    ensures |b| == 4 * |ws|
  {
    if ws == [] then [] else PutU32(ws[0]) + PutWords(ws[1..])
  }

  function GetWords(b: seq<byte>): (ws: seq<nat>)
    requires |b| % 4 == 0
    ensures |ws| == |b| / 4 && forall k | 0 <= k < |ws| :: ws[k] < U32
  {
    if b == [] then [] else [GetU32(b[..4])] + GetWords(b[4..])
  }

  lemma {:induction false} WordsRoundTrip(ws: seq<nat>)
    requires forall k | 0 <= k < |ws| :: ws[k] < U32
    ensures GetWords(PutWords(ws)) == ws
  {
    if ws != [] {
      var b := PutWords(ws);
      assert b[..4] == PutU32(ws[0]) && b[4..] == PutWords(ws[1..]);
      U32RoundTrip(ws[0]);
      WordsRoundTrip(ws[1..]);
    }
  }

  function PutInode(i: Inode): (b: seq<byte>)
    requires |i.blocks| == DIRECT && |i.name| == NAME_MAX
    ensures |b| == INODE_SIZE
  {
    [i.kind, i.pad] + PutU16(i.perm) + PutU32(i.size) + PutU32(i.created) + PutU32(i.modified)
    + PutWords(i.blocks) + i.name
  }

  function GetInode(b: seq<byte>): (i: Inode)
    requires |b| == INODE_SIZE
    ensures InodeFits(i)
  {
    Inode(b[0], b[1], GetU16(b[2..4]), GetU32(b[4..8]), GetU32(b[8..12]), GetU32(b[12..16]),
          GetWords(b[16..64]), b[64..])
  }

  lemma InodeRoundTrip(i: Inode)
    requires InodeFits(i)
    ensures GetInode(PutInode(i)) == i
  {
    var b := PutInode(i);
    assert b[2..4] == PutU16(i.perm) && b[4..8] == PutU32(i.size);
    assert b[8..12] == PutU32(i.created) && b[12..16] == PutU32(i.modified);
    assert b[16..64] == PutWords(i.blocks) && b[64..] == i.name;
    U16RoundTrip(i.perm); U32RoundTrip(i.size); U32RoundTrip(i.created); U32RoundTrip(i.modified);
    WordsRoundTrip(i.blocks);
  }

  ghost predicate TableFits(t: seq<Inode>) { forall i | 0 <= i < |t| :: InodeFits(t[i]) }

  function PutTable(t: seq<Inode>): (b: seq<byte>)
    requires forall i | 0 <= i < |t| :: |t[i].blocks| == DIRECT && |t[i].name| == NAME_MAX
    ensures |b| == INODE_SIZE * |t|
  {
    if t == [] then [] else PutInode(t[0]) + PutTable(t[1..])
  }

  function GetTable(b: seq<byte>): (t: seq<Inode>)
    requires |b| % INODE_SIZE == 0
    ensures |t| == |b| / INODE_SIZE && TableFits(t)
  {
    if b == [] then [] else
      var t := [GetInode(b[..INODE_SIZE])] + GetTable(b[INODE_SIZE..]);
      t
  }

  lemma {:induction false} TableRoundTrip(t: seq<Inode>)
    requires TableFits(t)
    ensures GetTable(PutTable(t)) == t
  {
    if t != [] {
      var b := PutTable(t);
      assert b[..INODE_SIZE] == PutInode(t[0]) && b[INODE_SIZE..] == PutTable(t[1..]);
      InodeRoundTrip(t[0]);
      TableRoundTrip(t[1..]);
    }
  }

  // ---------------------------------------------------------------- where the bytes lie

  /** Four bytes from `at` on hold v, the lowest first. */
  predicate LittleAt(b: seq<byte>, at: nat, v: nat) {
    && at + 4 <= |b|
    && b[at] == v % 0x100 && b[at + 1] == v / 0x100 % 0x100
    && b[at + 2] == v / 0x1_0000 % 0x100 && b[at + 3] == v / 0x100_0000
  }

  lemma WordBytes(v: nat, b: seq<byte>, at: nat)
    requires v < U32 && at + 4 <= |b| && b[at..at + 4] == PutU32(v)
    ensures LittleAt(b, at, v)
  {
    assert b[at] == PutU32(v)[0] && b[at + 1] == PutU32(v)[1] && b[at + 2] == PutU32(v)[2] && b[at + 3] == PutU32(v)[3];
  }

  /** The superblock's sector: the offsets of the packed struct. */
  lemma SuperBytes(s: Super)
    requires SuperFits(s)
    ensures var b := PutSuper(s);
            && LittleAt(b, 0, s.magic) && LittleAt(b, 4, s.version)
            && LittleAt(b, 8, s.totalBlocks) && LittleAt(b, 12, s.freeBlocks)
            && LittleAt(b, 16, s.totalInodes) && LittleAt(b, 20, s.freeInodes)
            && LittleAt(b, 24, s.rootInode) && LittleAt(b, 28, s.created) && b[32..64] == s.volume
  {
    var b := PutSuper(s);
    assert b[0..4] == PutU32(s.magic) && b[4..8] == PutU32(s.version);
    assert b[8..12] == PutU32(s.totalBlocks) && b[12..16] == PutU32(s.freeBlocks);
    assert b[16..20] == PutU32(s.totalInodes) && b[20..24] == PutU32(s.freeInodes);
    assert b[24..28] == PutU32(s.rootInode) && b[28..32] == PutU32(s.created);
    hide PutSuper, LittleAt;
    WordBytes(s.magic, b, 0); WordBytes(s.version, b, 4); WordBytes(s.totalBlocks, b, 8); WordBytes(s.freeBlocks, b, 12);
    WordBytes(s.totalInodes, b, 16); WordBytes(s.freeInodes, b, 20); WordBytes(s.rootInode, b, 24); WordBytes(s.created, b, 28);
  }

  lemma WordReads(b: seq<byte>, v: nat)
    requires |b| >= 4 && v < U32
    ensures GetU32(b[0..4]) == v <==> LittleAt(b, 0, v)
  {
    BytesOf(b[0], b[1], b[2], b[3]);
    if LittleAt(b, 0, v) {
      assert b[0..4] == PutU32(v);
      U32RoundTrip(v);
    }
    hide PutU32;
  }

  lemma BytesOf(b0: int, b1: int, b2: int, b3: int)
    requires 0 <= b0 < 256 && 0 <= b1 < 256 && 0 <= b2 < 256 && 0 <= b3 < 256
    ensures var v := b0 + 256 * b1 + 0x1_0000 * b2 + 0x100_0000 * b3;
            v % 0x100 == b0 && v / 0x100 % 0x100 == b1 && v / 0x1_0000 % 0x100 == b2 && v / 0x100_0000 == b3
  {
    var w2 := b2 + 256 * b3;
    var w1 := b1 + 256 * w2;
    var v := b0 + 256 * w1;
    assert v % 256 == b0 && v / 256 == w1 && w1 % 256 == b1 && w1 / 256 == w2 && w2 % 256 == b2 && w2 / 256 == b3;
    assert v / 0x1_0000 == w1 / 256 && v / 0x100_0000 == w2 / 256;
  }

  lemma {:induction false} PointerBytes(ws: seq<nat>, k: nat)
    requires k < |ws|
    ensures PutWords(ws)[4 * k..4 * k + 4] == PutU32(ws[k])
  {
    if k > 0 {
      PointerBytes(ws[1..], k - 1);
      assert PutWords(ws)[4 * k..4 * k + 4] == PutWords(ws[1..])[4 * (k - 1)..4 * (k - 1) + 4];
    }
  }

  lemma InodeParts(i: Inode)
    requires InodeFits(i)
    ensures var b := PutInode(i);
            && b[0] == i.kind && b[2] == i.perm % 256 && b[3] == i.perm / 256
            && b[4..8] == PutU32(i.size) && b[8..12] == PutU32(i.created) && b[12..16] == PutU32(i.modified)
            && b[16..64] == PutWords(i.blocks) && b[64..120] == i.name
  {
    hide PutU32, PutWords;
    var b := PutInode(i);
    assert b[2] == PutU16(i.perm)[0] && b[3] == PutU16(i.perm)[1];
  }

  /** The 120 bytes of an inode. */
  lemma InodeBytes(i: Inode, k: nat)
    requires InodeFits(i) && k < DIRECT
    ensures var b := PutInode(i);
            && b[0] == i.kind && b[2] == i.perm % 256 && b[3] == i.perm / 256
            && LittleAt(b, 4, i.size) && LittleAt(b, 8, i.created) && LittleAt(b, 12, i.modified)
            && LittleAt(b, 16 + 4 * k, i.blocks[k]) && b[64..120] == i.name
  {
    hide PutInode, LittleAt, PutWords, PutU32;
    var b := PutInode(i);
    InodeParts(i);
    PointerBytes(i.blocks, k);
    SliceShift(b[..64], 16, 16 + 4 * k, 16 + 4 * k + 4);
    assert b[..64][16..] == b[16..64] && b[..64][16 + 4 * k..16 + 4 * k + 4] == b[16 + 4 * k..16 + 4 * k + 4];
    WordBytes(i.size, b, 4); WordBytes(i.created, b, 8); WordBytes(i.modified, b, 12);
    WordBytes(i.blocks[k], b, 16 + 4 * k);
  }

  /** A cleared inode is 120 zero bytes. */
  lemma ClearedInode()
    ensures PutInode(ZeroInode()) == Zeros(INODE_SIZE)
  {
    ZeroWords(NoBlocks());
    assert |PutInode(ZeroInode())| == |Zeros(INODE_SIZE)|;
  }

  lemma {:induction false} ZeroWords(ws: seq<nat>)
    requires forall k | 0 <= k < |ws| :: ws[k] == 0
    ensures forall k | 0 <= k < 4 * |ws| :: PutWords(ws)[k] == 0
  {
    if ws != [] { ZeroWords(ws[1..]); }
  }

  /** Inode i has its place at byte 120 * i of the table. */
  lemma {:induction false} TableBytes(t: seq<Inode>, i: nat)
    requires TableFits(t) && i < |t|
    ensures PutTable(t)[INODE_SIZE * i..INODE_SIZE * i + INODE_SIZE] == PutInode(t[i])
  {
    if i > 0 {
      TableBytes(t[1..], i - 1);
      assert PutTable(t)[INODE_SIZE * i..INODE_SIZE * i + INODE_SIZE] ==
             PutTable(t[1..])[INODE_SIZE * (i - 1)..INODE_SIZE * (i - 1) + INODE_SIZE];
    }
  }

  // ---------------------------------------------------------------- sectors

  type Sector = s: seq<byte> | |s| == SECTOR witness Zeros(SECTOR)

  /** A byte string cut into sectors, and sectors joined again. */
  function Cut(b: seq<byte>): (ss: seq<Sector>)
    requires |b| % SECTOR == 0
    ensures |ss| == |b| / SECTOR
    ensures forall s | 0 <= s < |ss| :: ss[s] == b[SECTOR * s..SECTOR * s + SECTOR]
  {
    seq(|b| / SECTOR, s requires 0 <= s < |b| / SECTOR => b[SECTOR * s..SECTOR * s + SECTOR])
  }

  function Join(ss: seq<Sector>): (b: seq<byte>)
    ensures |b| == SECTOR * |ss|
  {
    if ss == [] then [] else Join(ss[..|ss| - 1]) + ss[|ss| - 1]
  }

  lemma SliceOfPrefix(a: seq<byte>, b: seq<byte>, from: nat, n: nat)
    requires from + n <= |a|
    ensures (a + b)[from..from + n] == a[from..from + n]
  {
  }

  lemma {:induction false} JoinIndex(ss: seq<Sector>, s: nat)
    requires s < |ss|
    ensures Join(ss)[SECTOR * s..SECTOR * s + SECTOR] == ss[s]
  {
    var n := |ss| - 1;
    if s < n {
      JoinIndex(ss[..n], s);
      SliceOfPrefix(Join(ss[..n]), ss[n], SECTOR * s, SECTOR);
    } else {
      assert Join(ss) == Join(ss[..n]) + ss[n];
    }
  }

  /** Cutting a prefix of whole sectors gives the first sectors. */
  lemma CutPrefix(b: seq<byte>, n: nat)
    requires |b| == SECTOR * (n + 1)
    ensures |b[..SECTOR * n]| % SECTOR == 0 && |b| % SECTOR == 0
    ensures |Cut(b)| == n + 1 && Cut(b)[..n] == Cut(b[..SECTOR * n]) && Cut(b)[n] == b[SECTOR * n..]
  {
    var c := b[..SECTOR * n];
    assert |c| == SECTOR * n;
    forall s | 0 <= s < n ensures Cut(b)[s] == Cut(c)[s] {
      assert c[SECTOR * s..SECTOR * s + SECTOR] == b[SECTOR * s..SECTOR * s + SECTOR];
    }
  }

  lemma {:induction false} JoinCut(b: seq<byte>, n: nat)
    requires |b| == SECTOR * n
    ensures Join(Cut(b)) == b
  {
    if n > 0 {
      CutPrefix(b, n - 1);
      hide Cut;
      JoinCut(b[..SECTOR * (n - 1)], n - 1);
      assert Join(Cut(b)) == Join(Cut(b)[..n - 1]) + Cut(b)[n - 1];
    }
  }
}

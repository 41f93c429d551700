/** Two-level page tables in physical memory (kernel/mm/paging.c). Memory is a sequence of 32-bit
    words; entry i of the directory or table in frame f is word 1024 * f + i. */
module Paging {
  import opened Bytes
  import opened Pmm

  type word = x: int | 0 <= x < 0x1_0000_0000

  const ENTRIES: nat := 1024
  const KERNEL_HALF: nat := 768       // KERNEL_VIRT_BASE >> 22
  const MEMORY: nat := 0x4000_0000    // words in 4 GiB

  type Memory = m: seq<word> | |m| == MEMORY witness seq(MEMORY, _ => 0)

  datatype Vm = Vm(mem: Memory, frames: Frames)

  function Entry(mem: Memory, f: nat, i: nat): word
    requires f < FRAMES_MAX && i < ENTRIES
  {
    mem[1024 * f + i]
  }

  function SetEntry(mem: Memory, f: nat, i: nat, e: word): (r: Memory)
    requires f < FRAMES_MAX && i < ENTRIES
    ensures forall g: nat, k: nat | g < FRAMES_MAX && k < ENTRIES ::
              Entry(r, g, k) == if g == f && k == i then e else Entry(mem, g, k)
  {
    mem[1024 * f + i := e]
  }

  /** The frame with its entries from `from` on replaced by the values in `v`. */
  function SetFrom(mem: Memory, f: nat, from: nat, v: seq<word>): (r: Memory)
    requires f < FRAMES_MAX && from + |v| <= ENTRIES
    ensures forall g: nat, k: nat | g < FRAMES_MAX && k < ENTRIES ::
              Entry(r, g, k) == if g == f && from <= k < from + |v| then v[k - from] else Entry(mem, g, k)
  {
    var a := 1024 * f + from;
    assert a + |v| <= MEMORY;
    mem[..a] + v + mem[a + |v|..]
  }

  predicate Present(e: word) { e % 2 == 1 }

  function FrameOf(e: word): (f: nat)
    ensures f < FRAMES_MAX
  {
    e / 4096
  }

  function DirIndex(virt: word): (i: nat)
    ensures i < ENTRIES
    ensures i < KERNEL_HALF <==> virt < 0xC000_0000
  {
    virt / 0x40_0000
  }

  function TableIndex(virt: word): (j: nat) ensures j < ENTRIES { virt / 4096 % 1024 }

  /** Two addresses have the same indices exactly when they lie in one page. */
  lemma SamePage(v: word, w: word)
    ensures DirIndex(v) == DirIndex(w) && TableIndex(v) == TableIndex(w) <==> v / PAGE == w / PAGE
  {
    assert v / 0x40_0000 == v / 4096 / 1024 && w / 0x40_0000 == w / 4096 / 1024;
  }

  /** The entry that maps page (i, j) of directory d; 0 when there is no table. */
  function Leaf(mem: Memory, d: nat, i: nat, j: nat): word
    requires d < FRAMES_MAX && i < ENTRIES && j < ENTRIES
  {
    var e := Entry(mem, d, i);
    if Present(e) then Entry(mem, FrameOf(e), j) else 0
  }

  predicate Mapped(mem: Memory, d: nat, virt: word)
    requires d < FRAMES_MAX
  {
    Present(Leaf(mem, d, DirIndex(virt), TableIndex(virt)))
  }

  /** paging_virt_to_phys: 0 also when the page is not mapped. */
  function VirtToPhys(mem: Memory, d: nat, virt: word): word
    requires d < FRAMES_MAX
  {
    var leaf := Leaf(mem, d, DirIndex(virt), TableIndex(virt));
    if Present(leaf) then FrameOf(leaf) * PAGE + virt % PAGE else 0
  }

  /** alloc_table: a frame from the allocator, filled with zeros; -1 when there is none. */
  function AllocTable(s: Vm): (r: (Vm, int))
    requires |s.frames.words| == WORDS
    ensures r.1 < FRAMES_MAX
  {
    var (frames, t) := Alloc(s.frames);
    if t < 0 then (s, -1) else (Vm(SetFrom(s.mem, t, 0, seq(ENTRIES, _ => 0)), frames), t)
  }

  /** `tbl | PRESENT | WRITE | (flags & USER)` */
  function TableEntry(t: nat, flags: word): (e: word)
    requires t < FRAMES_MAX
    ensures Present(e) && FrameOf(e) == t
  {
    t * PAGE + 3 + flags / 4 % 2 * 4
  }

  /** The frame that a leaf names: flag bits above the low twelve are or-ed into it. */
  function LeafFrame(phys: word, flags: word): (f: nat)
    ensures f < FRAMES_MAX && (flags < PAGE ==> f == phys / PAGE)
  {
    PowersOfTwo();
    OrFits(phys / PAGE, flags / PAGE, 20);
    Or(phys / PAGE, flags / PAGE)
  }

  /** `(phys & ~0xFFF) | (flags | PRESENT)` */
  function LeafEntry(phys: word, flags: word): (e: word)
    ensures Present(e) && FrameOf(e) == LeafFrame(phys, flags)
  {
    var frame, low := LeafFrame(phys, flags), flags % PAGE / 2 * 2 + 1;
    assert low < PAGE && low % 2 == 1;
    frame * PAGE + low
  }

  /** The table for index i of directory d, allocated and entered when there is none yet. */
  function TableFor(s: Vm, d: nat, i: nat, flags: word): (r: (Vm, int))
    requires |s.frames.words| == WORDS && d < FRAMES_MAX && i < ENTRIES
    ensures r.1 < FRAMES_MAX
  {
    if Present(Entry(s.mem, d, i)) then (s, FrameOf(Entry(s.mem, d, i)))
    else
      var (r, t) := AllocTable(s);
      if t < 0 then (s, -1) else (r.(mem := SetEntry(r.mem, d, i, TableEntry(t, flags))), t)
  }

  function MapPage(s: Vm, d: nat, virt: word, phys: word, flags: word): Vm
    requires |s.frames.words| == WORDS && d < FRAMES_MAX
  {
    var (r, t) := TableFor(s, d, DirIndex(virt), flags);
    if t < 0 then s else r.(mem := SetEntry(r.mem, t, TableIndex(virt), LeafEntry(phys, flags)))
  }

  function UnmapPage(s: Vm, d: nat, virt: word): Vm
    requires d < FRAMES_MAX
  {
    var e := Entry(s.mem, d, DirIndex(virt));
    if !Present(e) then s else s.(mem := SetEntry(s.mem, FrameOf(e), TableIndex(virt), 0))
  }

  function KernelEntries(mem: Memory, k: nat): (v: seq<word>)
    requires k < FRAMES_MAX
    ensures |v| == ENTRIES - KERNEL_HALF
    ensures forall i | 0 <= i < |v| :: v[i] == Entry(mem, k, KERNEL_HALF + i)
  {
    seq<word>(ENTRIES - KERNEL_HALF, i requires 0 <= i < 256 => Entry(mem, k, KERNEL_HALF + i))
  }

  /** paging_create_directory: an empty user half, the kernel half of directory k. */
  function CreateDirectory(s: Vm, k: nat): (r: (Vm, int))
    requires |s.frames.words| == WORDS && k < FRAMES_MAX
    ensures r.1 < FRAMES_MAX
  {
    var (frames, d) := Alloc(s.frames);
    if d < 0 then (s, -1)
    else
      var mem := SetFrom(s.mem, d, 0, seq(KERNEL_HALF, _ => 0));
      (Vm(SetFrom(mem, d, KERNEL_HALF, KernelEntries(mem, k)), frames), d)
  }

  // ---------------------------------------------------------------- tables never alias

  /** Directories and the tables they reach are frames in use; no table is a directory; one frame
      serves as table at one index only, and in the user half for one directory only. */
  ghost predicate Separate(s: Vm, kernelFrames: nat, dirs: set<nat>) {
    && Inv(s.frames, kernelFrames)
    && (forall d | d in dirs :: d < FRAMES_MAX && InUse(s.frames.words, d))
    && (forall d, i: nat | d in dirs && i < ENTRIES :: TableInUse(s, dirs, d, i))
    && (forall d, e, i: nat, j: nat | d in dirs && e in dirs && i < ENTRIES && j < ENTRIES ::
          SharedOnlyInKernelHalf(s.mem, d, e, i, j))
  }

  ghost predicate TableInUse(s: Vm, dirs: set<nat>, d: nat, i: nat)
    requires |s.frames.words| == WORDS && d < FRAMES_MAX && i < ENTRIES
  {
    Present(Entry(s.mem, d, i)) ==> FrameOf(Entry(s.mem, d, i)) !in dirs && InUse(s.frames.words, FrameOf(Entry(s.mem, d, i)))
  }

  predicate SharedOnlyInKernelHalf(mem: Memory, d: nat, e: nat, i: nat, j: nat)
    requires d < FRAMES_MAX && e < FRAMES_MAX && i < ENTRIES && j < ENTRIES
  {
    Present(Entry(mem, d, i)) && Present(Entry(mem, e, j)) && FrameOf(Entry(mem, d, i)) == FrameOf(Entry(mem, e, j))
    ==> i == j && (d == e || i >= KERNEL_HALF)
  }

  /** No table for the page, and no frame left to make one. */
  ghost predicate NoTable(s: Vm, d: nat, virt: word)
    requires d < FRAMES_MAX
  {
    !Present(Entry(s.mem, d, DirIndex(virt))) && s.frames.used == s.frames.total
  }

  /** Separation depends only on the directories' own entries and the frames in use. */
  lemma SameDirsSeparate(s: Vm, r: Vm, kernelFrames: nat, dirs: set<nat>)
    requires Separate(s, kernelFrames, dirs) && Inv(r.frames, kernelFrames)
    requires forall e, k: nat | e in dirs && k < ENTRIES :: Entry(r.mem, e, k) == Entry(s.mem, e, k)
    requires forall f: nat | f < FRAMES_MAX && InUse(s.frames.words, f) :: InUse(r.frames.words, f)
    ensures Separate(r, kernelFrames, dirs)
  {
    hide InUse, FrameOf, Entry, Present;
    forall d, i: nat | d in dirs && i < ENTRIES ensures TableInUse(r, dirs, d, i) { assert TableInUse(s, dirs, d, i); }
    forall d, e, i: nat, j: nat | d in dirs && e in dirs && i < ENTRIES && j < ENTRIES
      ensures SharedOnlyInKernelHalf(r.mem, d, e, i, j)
    {
      assert SharedOnlyInKernelHalf(s.mem, d, e, i, j);
    }
  }

  /** Entering a frame that was free as the table of one index keeps tables separate. */
  lemma NewTableSeparate(s: Vm, r: Vm, kernelFrames: nat, dirs: set<nat>, d: nat, i: nat, t: nat)
    requires Separate(s, kernelFrames, dirs) && Inv(r.frames, kernelFrames)
    requires d in dirs && i < ENTRIES && t < FRAMES_MAX && !InUse(s.frames.words, t) && InUse(r.frames.words, t)
    requires FrameOf(Entry(r.mem, d, i)) == t
    requires forall e, k: nat | e in dirs && k < ENTRIES && (e, k) != (d, i) :: Entry(r.mem, e, k) == Entry(s.mem, e, k)
    requires forall f: nat | f < FRAMES_MAX && InUse(s.frames.words, f) :: InUse(r.frames.words, f)
    ensures t !in dirs && Separate(r, kernelFrames, dirs)
  {
    hide InUse, FrameOf, Entry, Present;
    forall e, k: nat | e in dirs && k < ENTRIES ensures TableInUse(r, dirs, e, k) { assert TableInUse(s, dirs, e, k); }
    forall c, e, k: nat, j: nat | c in dirs && e in dirs && k < ENTRIES && j < ENTRIES
      ensures SharedOnlyInKernelHalf(r.mem, c, e, k, j)
    {
      assert SharedOnlyInKernelHalf(s.mem, c, e, k, j) && TableInUse(s, dirs, c, k) && TableInUse(s, dirs, e, j);
    }
  }

  lemma TableForKeeps(s: Vm, kernelFrames: nat, dirs: set<nat>, d: nat, i: nat, flags: word)
    requires Separate(s, kernelFrames, dirs) && d in dirs && i < ENTRIES
    ensures var (r, t) := TableFor(s, d, i, flags);
            && Separate(r, kernelFrames, dirs)
            && (t < 0 <==> !Present(Entry(s.mem, d, i)) && s.frames.used == s.frames.total)
            && (t < 0 ==> r == s)
            && (t >= 0 ==> t !in dirs && Present(Entry(r.mem, d, i)) && FrameOf(Entry(r.mem, d, i)) == t)
            && forall e, k: nat, j: nat | e in dirs && k < ENTRIES && j < ENTRIES ::
                 Leaf(r.mem, e, k, j) == Leaf(s.mem, e, k, j)
  {
    assert |s.frames.words| == WORDS;
    hide SetEntry, SetFrom, Inv, InUse, Alloc, TableEntry, FrameOf, Entry, Present;
    AllocKeeps(s.frames, kernelFrames);
    assert TableInUse(s, dirs, d, i);
    var (r, t) := TableFor(s, d, i, flags);
    if !Present(Entry(s.mem, d, i)) && t >= 0 {
      NewTableSeparate(s, r, kernelFrames, dirs, d, i, t);
      forall e, k: nat, j: nat | e in dirs && k < ENTRIES && j < ENTRIES
        ensures Leaf(r.mem, e, k, j) == Leaf(s.mem, e, k, j)
      {
        assert TableInUse(s, dirs, e, k);
      }
    }
  }

  lemma SetLeafKeeps(s: Vm, kernelFrames: nat, dirs: set<nat>, d: nat, i: nat, j: nat, leaf: word)
    requires Separate(s, kernelFrames, dirs) && d in dirs && i < ENTRIES && j < ENTRIES
    requires Present(Entry(s.mem, d, i))
    ensures var r := s.(mem := SetEntry(s.mem, FrameOf(Entry(s.mem, d, i)), j, leaf));
            && Separate(r, kernelFrames, dirs)
            && Leaf(r.mem, d, i, j) == leaf
            && (forall e, k: nat | e in dirs && k < ENTRIES :: Entry(r.mem, e, k) == Entry(s.mem, e, k))
            && forall e, k: nat, l: nat | e in dirs && k < ENTRIES && l < ENTRIES ::
                 (k, l) != (i, j) || (e != d && i < KERNEL_HALF) ==> Leaf(r.mem, e, k, l) == Leaf(s.mem, e, k, l)
  {
    assert |s.frames.words| == WORDS;
    hide SetEntry, Inv, InUse, FrameOf, Entry, Present;
    var t := FrameOf(Entry(s.mem, d, i));
    assert t !in dirs by { assert TableInUse(s, dirs, d, i); }
    var r := s.(mem := SetEntry(s.mem, t, j, leaf));
    forall e, k: nat, l: nat | e in dirs && k < ENTRIES && l < ENTRIES
      ensures (k, l) != (i, j) || (e != d && i < KERNEL_HALF) ==> Leaf(r.mem, e, k, l) == Leaf(s.mem, e, k, l)
    {
      assert SharedOnlyInKernelHalf(s.mem, d, e, i, k) && TableInUse(s, dirs, e, k);
    }
    SameDirsSeparate(s, r, kernelFrames, dirs);
  }

  /** A leaf as the hardware reads it: `(phys & ~0xFFF) | (flags | PRESENT)`, bit by bit. */
  ghost predicate LeafHolds(e: word, phys: word, flags: word) {
    forall k | 0 <= k < 32 :: Bit(e, k) <==> k == 0 || Bit(flags, k) || (k >= 12 && Bit(phys, k))
  }

  /** A directory entry for table t: present, writable, and for user code when the mapping is. */
  ghost predicate TableHolds(e: word, t: nat, flags: word) {
    FrameOf(e) == t && forall k | 0 <= k < 12 :: Bit(e, k) <==> k < 2 || (k == 2 && Bit(flags, 2))
  }

  lemma PageBits(v: word, k: nat)
    ensures Bit(v, k) <==> if k < 12 then Bit(v % PAGE, k) else Bit(v / PAGE, k - 12)
  {
    assert Pow2(12) == PAGE;
    BitSplit(v / PAGE, v % PAGE, 12, k);
  }

  lemma LeafEntryHolds(phys: word, flags: word)
    ensures LeafHolds(LeafEntry(phys, flags), phys, flags)
  {
    var e, low := LeafEntry(phys, flags), flags % PAGE;
    assert e % PAGE == SetBit(low, 0) && e / PAGE == LeafFrame(phys, flags);
    hide LeafEntry, LeafFrame, Bit, SetBit;
    forall k | 0 <= k < 32 ensures Bit(e, k) <==> k == 0 || Bit(flags, k) || (k >= 12 && Bit(phys, k)) {
      PageBits(e, k);
      PageBits(flags, k);
      PageBits(phys, k);
      SetBitAt(low, 0, k);
      if k >= 12 { FrameBits(phys, flags, k - 12); }
    }
  }

  lemma FrameBits(phys: word, flags: word, k: nat)
    ensures Bit(LeafFrame(phys, flags), k) <==> Bit(phys / PAGE, k) || Bit(flags / PAGE, k)
  {
    OrAt(phys / PAGE, flags / PAGE, k);
  }

  lemma TableEntryHolds(t: nat, flags: word)
    requires t < FRAMES_MAX
    ensures TableHolds(TableEntry(t, flags), t, flags)
  {
    var e, u := TableEntry(t, flags), flags / 4 % 2;
    assert e % PAGE == 3 + 4 * u;
    hide TableEntry;
    assert Bit(flags, 2) == Bit(flags / 2, 1) == Bit(flags / 2 / 2, 0) && flags / 2 / 2 == flags / 4;
    forall k | 0 <= k < 12 ensures Bit(e, k) <==> k < 2 || (k == 2 && Bit(flags, 2)) {
      PageBits(e, k);
      LowFlags(u, k);
    }
  }

  lemma LowFlags(u: nat, k: nat)
    requires u < 2
    ensures Bit(3 + 4 * u, k) <==> k < 2 || (k == 2 && u == 1)
  {
    assert Pow2(2) == 4;
    BitSplit(u, 3, 2, k);
    if k >= 3 { ZeroBits(k - 3); }
  }

  /** What the hardware finds after paging_map_page: the page's entry holds the frame and exactly the access
      bits asked for, and a table made for it is a frame that was free, reached through a directory entry
      that lets writes, and user code if asked for, pass. No other entry of a directory changes. */
  lemma MapGrantsAccess(s: Vm, kernelFrames: nat, dirs: set<nat>, d: nat, virt: word, phys: word, flags: word)
    requires Separate(s, kernelFrames, dirs) && d in dirs && !NoTable(s, d, virt)
    ensures var r, i, j := MapPage(s, d, virt, phys, flags).mem, DirIndex(virt), TableIndex(virt);
            && Present(Entry(r, d, i)) && LeafHolds(Leaf(r, d, i, j), phys, flags)
            && (!Present(Entry(s.mem, d, i)) ==>
                  Alloc(s.frames).1 >= 0 && TableHolds(Entry(r, d, i), Alloc(s.frames).1, flags))
            && forall e, k: nat | e in dirs && k < ENTRIES && ((e, k) != (d, i) || Present(Entry(s.mem, d, i))) ::
                 Entry(r, e, k) == Entry(s.mem, e, k)
  {
    assert |s.frames.words| == WORDS;
    hide SetEntry, SetFrom, Inv, InUse, Alloc, TableEntry, LeafEntry, LeafFrame, FrameOf, DirIndex, TableIndex, Entry, LeafHolds, TableHolds;
    var i, j := DirIndex(virt), TableIndex(virt);
    AllocKeeps(s.frames, kernelFrames);
    TableForKeeps(s, kernelFrames, dirs, d, i, flags);
    var (r, t) := TableFor(s, d, i, flags);
    SetLeafKeeps(r, kernelFrames, dirs, d, i, j, LeafEntry(phys, flags));
    LeafEntryHolds(phys, flags);
    if !Present(Entry(s.mem, d, i)) { TableEntryHolds(Alloc(s.frames).1, flags); }
  }

  /** paging_map_page translates the page to the given frame and changes no other page; in the user
      half no page of any other directory. It does nothing exactly when a table is needed and no
      frame is free. */
  lemma MapChangesOnePage(s: Vm, kernelFrames: nat, dirs: set<nat>, d: nat, virt: word, phys: word, flags: word)
    requires Separate(s, kernelFrames, dirs) && d in dirs
    ensures var r := MapPage(s, d, virt, phys, flags);
            && Separate(r, kernelFrames, dirs)
            && (NoTable(s, d, virt) ==> r == s)
            && (!NoTable(s, d, virt) ==>
                  Mapped(r.mem, d, virt) && VirtToPhys(r.mem, d, virt) == LeafFrame(phys, flags) * PAGE + virt % PAGE)
            && (forall e, k: nat, l: nat | e in dirs && k < ENTRIES && l < ENTRIES
                  && ((k, l) != (DirIndex(virt), TableIndex(virt)) || (e != d && virt < 0xC000_0000)) ::
                  Leaf(r.mem, e, k, l) == Leaf(s.mem, e, k, l))
            && forall e, w: word | e in dirs && (w / PAGE != virt / PAGE || (e != d && virt < 0xC000_0000)) ::
                 Mapped(r.mem, e, w) == Mapped(s.mem, e, w) && VirtToPhys(r.mem, e, w) == VirtToPhys(s.mem, e, w)
  {
    assert |s.frames.words| == WORDS;
    hide SetEntry, SetFrom, Inv, InUse, Alloc, TableEntry, LeafEntry, LeafFrame, FrameOf, DirIndex, TableIndex, TableFor, Leaf;
    var i, j := DirIndex(virt), TableIndex(virt);
    TableForKeeps(s, kernelFrames, dirs, d, i, flags);
    var (r, t) := TableFor(s, d, i, flags);
    if t >= 0 { SetLeafKeeps(r, kernelFrames, dirs, d, i, j, LeafEntry(phys, flags)); }
    forall w: word ensures w / PAGE != virt / PAGE ==> (DirIndex(w), TableIndex(w)) != (i, j) { SamePage(virt, w); }
  }

  /** paging_unmap_page removes that page and no other. */
  lemma UnmapRemovesOnePage(s: Vm, kernelFrames: nat, dirs: set<nat>, d: nat, virt: word)
    requires Separate(s, kernelFrames, dirs) && d in dirs
    ensures var r := UnmapPage(s, d, virt);
            && Separate(r, kernelFrames, dirs) && !Mapped(r.mem, d, virt)
            && r.frames == s.frames && Leaf(r.mem, d, DirIndex(virt), TableIndex(virt)) == 0
            && (forall e, k: nat | e in dirs && k < ENTRIES :: Entry(r.mem, e, k) == Entry(s.mem, e, k))
            && (forall e, k: nat, l: nat | e in dirs && k < ENTRIES && l < ENTRIES
                  && ((k, l) != (DirIndex(virt), TableIndex(virt)) || (e != d && virt < 0xC000_0000)) ::
                  Leaf(r.mem, e, k, l) == Leaf(s.mem, e, k, l))
            && forall e, w: word | e in dirs && (w / PAGE != virt / PAGE || (e != d && virt < 0xC000_0000)) ::
                 Mapped(r.mem, e, w) == Mapped(s.mem, e, w) && VirtToPhys(r.mem, e, w) == VirtToPhys(s.mem, e, w)
  {
    assert |s.frames.words| == WORDS;
    hide SetEntry, Inv, InUse, FrameOf, DirIndex, TableIndex, Leaf;
    var i, j := DirIndex(virt), TableIndex(virt);
    if Present(Entry(s.mem, d, i)) { SetLeafKeeps(s, kernelFrames, dirs, d, i, j, 0); }
    else { assert Leaf(s.mem, d, i, j) == 0 by { AbsentLeaf(s.mem, d, i, j); } }
    forall w: word ensures w / PAGE != virt / PAGE ==> (DirIndex(w), TableIndex(w)) != (i, j) { SamePage(virt, w); }
  }

  lemma AbsentLeaf(mem: Memory, d: nat, i: nat, j: nat)
    requires d < FRAMES_MAX && i < ENTRIES && j < ENTRIES && !Present(Entry(mem, d, i))
    ensures Leaf(mem, d, i, j) == 0
  {}

  /** A new directory that repeats kernel-half entries of another keeps tables separate. */
  lemma NewDirectorySeparate(s: Vm, r: Vm, kernelFrames: nat, dirs: set<nat>, k: nat, d: nat)
    requires Separate(s, kernelFrames, dirs) && Inv(r.frames, kernelFrames)
    requires k in dirs && d < FRAMES_MAX && !InUse(s.frames.words, d) && InUse(r.frames.words, d)
    requires forall i: nat | i < ENTRIES :: Entry(r.mem, d, i) == if i < KERNEL_HALF then 0 else Entry(s.mem, k, i)
    requires forall e, i: nat | e in dirs && i < ENTRIES :: Entry(r.mem, e, i) == Entry(s.mem, e, i)
    requires forall f: nat | f < FRAMES_MAX && InUse(s.frames.words, f) :: InUse(r.frames.words, f)
    ensures d !in dirs && Separate(r, kernelFrames, dirs + {d})
  {
    hide InUse, FrameOf, Entry;
    var all := dirs + {d};
    forall e, i: nat | e in all && i < ENTRIES ensures TableInUse(r, all, e, i) {
      assert TableInUse(s, dirs, if e == d then k else e, i);
    }
    forall c, e, i: nat, j: nat | c in all && e in all && i < ENTRIES && j < ENTRIES
      ensures SharedOnlyInKernelHalf(r.mem, c, e, i, j)
    {
      assert SharedOnlyInKernelHalf(s.mem, if c == d then k else c, if e == d then k else e, i, j);
    }
  }

  lemma CreateDirectoryEntries(s: Vm, kernelFrames: nat, k: nat)
    requires Inv(s.frames, kernelFrames) && k < FRAMES_MAX && InUse(s.frames.words, k)
    ensures var (r, d) := CreateDirectory(s, k);
            && (d < 0 ==> r == s)
            && r.frames == Alloc(s.frames).0 && d == Alloc(s.frames).1
            && (d >= 0 ==>
                  && (forall i: nat | i < ENTRIES ::
                        Entry(r.mem, d, i) == if i < KERNEL_HALF then 0 else Entry(s.mem, k, i))
                  && (forall f: nat, i: nat | f < FRAMES_MAX && i < ENTRIES && f != d :: Entry(r.mem, f, i) == Entry(s.mem, f, i)))
  {
    AllocKeeps(s.frames, kernelFrames);
    assert |s.frames.words| == WORDS;
    hide Inv, InUse, Alloc, Entry, SetFrom;
  }

  /** A new directory maps nothing in its user half and in its kernel half what k maps; the others
      keep all their pages. It is refused exactly when no frame is free. */
  lemma CreateCopiesKernelHalf(s: Vm, kernelFrames: nat, dirs: set<nat>, k: nat)
    requires Separate(s, kernelFrames, dirs) && k in dirs
    ensures var (r, d) := CreateDirectory(s, k);
            && (d < 0 <==> s.frames.used == s.frames.total)
            && (d < 0 ==> r == s)
            && (d >= 0 ==>
                  && d !in dirs && Separate(r, kernelFrames, dirs + {d})
                  && (forall i: nat, j: nat | i < ENTRIES && j < ENTRIES ::
                        Leaf(r.mem, d, i, j) == if i < KERNEL_HALF then 0 else Leaf(s.mem, k, i, j))
                  && (forall e, i: nat, j: nat | e in dirs && i < ENTRIES && j < ENTRIES ::
                        Leaf(r.mem, e, i, j) == Leaf(s.mem, e, i, j)))
  {
    assert |s.frames.words| == WORDS;
    hide CreateDirectory, Inv, InUse, Alloc, FrameOf, Entry;
    AllocKeeps(s.frames, kernelFrames);
    CreateDirectoryEntries(s, kernelFrames, k);
    var (r, d) := CreateDirectory(s, k);
    if d >= 0 {
      NewDirectorySeparate(s, r, kernelFrames, dirs, k, d);
      forall e, i: nat, j: nat | e in dirs && i < ENTRIES && j < ENTRIES
        ensures Leaf(r.mem, e, i, j) == Leaf(s.mem, e, i, j)
      {
        assert TableInUse(s, dirs, e, i);
      }
      forall i: nat, j: nat | i < ENTRIES && j < ENTRIES
        ensures Leaf(r.mem, d, i, j) == if i < KERNEL_HALF then 0 else Leaf(s.mem, k, i, j)
      {
        assert TableInUse(s, dirs, k, i);
      }
    }
  }

  // ---------------------------------------------------------------- the boot mapping

  /** The 1024 entries of a table that maps `from` and the 4 MiB after it. */
  function Identity(from: nat): (v: seq<word>)
    requires from <= 0x40_0000
    ensures |v| == ENTRIES && forall j | 0 <= j < ENTRIES :: v[j] == from + j * PAGE + 3
  {
    seq(ENTRIES, j requires 0 <= j < ENTRIES => from + j * PAGE + 3)
  }

  function BootDirectory(t0: nat, t1: nat, h0: nat, h1: nat): (v: seq<word>)
    requires t0 < FRAMES_MAX && t1 < FRAMES_MAX && h0 < FRAMES_MAX && h1 < FRAMES_MAX
    ensures |v| == ENTRIES
    ensures forall i | 0 <= i < ENTRIES ::
              v[i] == (if i == 0 then t0 * PAGE + 3 else if i == 1 then t1 * PAGE + 3
                       else if i == 768 then h0 * PAGE + 3 else if i == 769 then h1 * PAGE + 3 else 0)
  {
    seq(ENTRIES, _ => 0)[0 := t0 * PAGE + 3][1 := t1 * PAGE + 3][768 := h0 * PAGE + 3][769 := h1 * PAGE + 3]
  }

  /** paging_init: the kernel's directory k and its four static tables. */
  function BootMemory(mem: Memory, k: nat, t0: nat, t1: nat, h0: nat, h1: nat): Memory
    requires k < FRAMES_MAX && t0 < FRAMES_MAX && t1 < FRAMES_MAX && h0 < FRAMES_MAX && h1 < FRAMES_MAX
  {
    var tables := SetFrom(SetFrom(mem, t0, 0, Identity(0)), t1, 0, Identity(0x40_0000));
    var mirrors := SetFrom(SetFrom(tables, h0, 0, Identity(0)), h1, 0, Identity(0x40_0000));
    SetFrom(mirrors, k, 0, BootDirectory(t0, t1, h0, h1))
  }

  predicate Distinct(k: nat, t0: nat, t1: nat, h0: nat, h1: nat) {
    k !in {t0, t1, h0, h1} && t0 !in {t1, h0, h1} && t1 !in {h0, h1} && h0 != h1
  }

  lemma BootEntries(mem: Memory, k: nat, t0: nat, t1: nat, h0: nat, h1: nat)
    requires k < FRAMES_MAX && t0 < FRAMES_MAX && t1 < FRAMES_MAX && h0 < FRAMES_MAX && h1 < FRAMES_MAX
    requires Distinct(k, t0, t1, h0, h1)
    ensures var r := BootMemory(mem, k, t0, t1, h0, h1);
            && (forall i: nat | i < ENTRIES :: Entry(r, k, i) == BootDirectory(t0, t1, h0, h1)[i])
            && (forall j: nat | j < ENTRIES :: Entry(r, t0, j) == j * PAGE + 3 && Entry(r, h0, j) == j * PAGE + 3)
            && (forall j: nat | j < ENTRIES ::
                  Entry(r, t1, j) == 0x40_0000 + j * PAGE + 3 && Entry(r, h1, j) == 0x40_0000 + j * PAGE + 3)
  {
    hide SetFrom, Entry, Identity, BootDirectory;
  }

  lemma BootLeaf(mem: Memory, k: nat, t0: nat, t1: nat, h0: nat, h1: nat, i: nat, j: nat)
    requires k < FRAMES_MAX && t0 < FRAMES_MAX && t1 < FRAMES_MAX && h0 < FRAMES_MAX && h1 < FRAMES_MAX
    requires Distinct(k, t0, t1, h0, h1) && i < ENTRIES && j < ENTRIES
    ensures Leaf(BootMemory(mem, k, t0, t1, h0, h1), k, i, j) ==
            if i == 0 || i == 768 then j * PAGE + 3 else if i == 1 || i == 769 then 0x40_0000 + j * PAGE + 3 else 0
  {
    BootEntries(mem, k, t0, t1, h0, h1);
    ZeroAbsent();
    FlaggedEntry(t0);
    FlaggedEntry(t1);
    FlaggedEntry(h0);
    FlaggedEntry(h1);
    hide BootMemory, Entry, BootDirectory, Present, FrameOf;
  }

  lemma ZeroAbsent() ensures !Present(0) {}

  lemma AddressParts(virt: word)
    ensures virt == DirIndex(virt) * 0x40_0000 + TableIndex(virt) * PAGE + virt % PAGE
  {
    assert virt / 4096 == DirIndex(virt) * 1024 + TableIndex(virt);
  }

  lemma FlaggedEntry(f: nat)
    requires f < FRAMES_MAX
    ensures f * PAGE + 3 < U32 && Present(f * PAGE + 3) && FrameOf(f * PAGE + 3) == f
  {}

  /** The flag bits of an entry are PRESENT and WRITE, without USER. */
  predicate Writable(e: word) { e % PAGE == 3 }

  /** After paging_init the first 8 MiB are mapped to themselves and at 0xC0000000, and nothing
      else is mapped; what is mapped may be written, by the kernel alone. */
  lemma BootMaps(mem: Memory, k: nat, t0: nat, t1: nat, h0: nat, h1: nat, virt: word)
    requires k < FRAMES_MAX && t0 < FRAMES_MAX && t1 < FRAMES_MAX && h0 < FRAMES_MAX && h1 < FRAMES_MAX
    requires Distinct(k, t0, t1, h0, h1)
    ensures var r := BootMemory(mem, k, t0, t1, h0, h1);
            var offset := if virt < 0xC000_0000 then virt else virt - 0xC000_0000;
            && (Mapped(r, k, virt) <==> offset < 0x80_0000)
            && VirtToPhys(r, k, virt) == (if offset < 0x80_0000 then offset else 0)
            && (Mapped(r, k, virt) ==> Writable(Entry(r, k, DirIndex(virt))) && Writable(Leaf(r, k, DirIndex(virt), TableIndex(virt))))
  {
    var i, j := DirIndex(virt), TableIndex(virt);
    BootLeaf(mem, k, t0, t1, h0, h1, i, j);
    AddressParts(virt);
    FlaggedEntry(j);
    FlaggedEntry(1024 + j);
    hide BootMemory, Leaf, DirIndex, TableIndex, Present, FrameOf;
    assert !Present(0) by { ZeroAbsent(); }
  }

  /** The boot state is the start of safe runs: the static tables lie below the end of the kernel, so
      the frame allocator never hands them out. */
  lemma BootIsSafe(mem: Memory, frames: Frames, kernelFrames: nat, k: nat, t0: nat, t1: nat, h0: nat, h1: nat)
    requires Inv(frames, kernelFrames) && Distinct(k, t0, t1, h0, h1) && kernelFrames <= FRAMES_MAX
    requires k < kernelFrames && t0 < kernelFrames && t1 < kernelFrames && h0 < kernelFrames && h1 < kernelFrames
    ensures Safe(World(Vm(BootMemory(mem, k, t0, t1, h0, h1), frames), {k}), kernelFrames)
  {
    BootEntries(mem, k, t0, t1, h0, h1);
    ZeroAbsent();
    FlaggedEntry(t0);
    FlaggedEntry(t1);
    FlaggedEntry(h0);
    FlaggedEntry(h1);
    assert InUse(frames.words, k) && InUse(frames.words, t0) && InUse(frames.words, t1)
           && InUse(frames.words, h0) && InUse(frames.words, h1);
    hide BootMemory, Entry, BootDirectory, Present, FrameOf, Inv, InUse;
    var r := BootMemory(mem, k, t0, t1, h0, h1);
    forall i: nat, j: nat | i < ENTRIES && j < ENTRIES ensures SharedOnlyInKernelHalf(r, k, k, i, j) {}
    forall i: nat | i < ENTRIES ensures TableInUse(Vm(r, frames), {k}, k, i) {}
  }

  // ---------------------------------------------------------------- runs

  /** `Take` is a frame taken by any other part of the kernel. */
  datatype Op =
    | Create(like: nat)
    | Map(dir: nat, virt: word, phys: word, flags: word)
    | Unmap(dir: nat, virt: word)
    | Take

  datatype World = World(vm: Vm, dirs: set<nat>)

  predicate Enabled(w: World, op: Op) {
    match op
    case Create(k) => k in w.dirs
    case Map(d, _, _, flags) => d in w.dirs
    case Unmap(d, _) => d in w.dirs
    case Take => true
  }

  ghost predicate Safe(w: World, kernelFrames: nat) { Separate(w.vm, kernelFrames, w.dirs) }

  ghost function Step(w: World, kernelFrames: nat, op: Op): World
    requires Safe(w, kernelFrames) && Enabled(w, op)
  {
    match op
    case Create(k) =>
      var (vm, d) := CreateDirectory(w.vm, k);
      World(vm, if d < 0 then w.dirs else w.dirs + {d as nat})
    case Map(d, virt, phys, flags) => w.(vm := MapPage(w.vm, d, virt, phys, flags))
    case Unmap(d, virt) => w.(vm := UnmapPage(w.vm, d, virt))
    case Take => w.(vm := w.vm.(frames := Alloc(w.vm.frames).0))
  }

  /** Operations that map or unmap nothing in directory e and nothing in the kernel half. */
  predicate Spares(op: Op, e: nat) {
    match op
    case Map(d, virt, _, _) => d != e && virt < 0xC000_0000
    case Unmap(d, virt) => d != e && virt < 0xC000_0000
    case _ => true
  }

  lemma StepKeeps(w: World, kernelFrames: nat, op: Op, e: nat)
    requires Safe(w, kernelFrames) && Enabled(w, op) && e in w.dirs
    ensures var r := Step(w, kernelFrames, op);
            && Safe(r, kernelFrames) && w.dirs <= r.dirs
            && (Spares(op, e) ==> SameTranslations(w.vm.mem, r.vm.mem, e))
  {
    hide MapPage, UnmapPage, CreateDirectory, Separate, Leaf, DirIndex, TableIndex, FrameOf;
    match op
    case Create(k) => CreateCopiesKernelHalf(w.vm, kernelFrames, w.dirs, k);
    case Map(d, virt, phys, flags) => MapChangesOnePage(w.vm, kernelFrames, w.dirs, d, virt, phys, flags);
    case Unmap(d, virt) => UnmapRemovesOnePage(w.vm, kernelFrames, w.dirs, d, virt);
    case Take => TakeKeeps(w, kernelFrames);
  }

  lemma TakeKeeps(w: World, kernelFrames: nat)
    requires Safe(w, kernelFrames)
    ensures var vm := w.vm.(frames := Alloc(w.vm.frames).0); Separate(vm, kernelFrames, w.dirs)
  {
    AllocKeeps(w.vm.frames, kernelFrames);
    SameDirsSeparate(w.vm, w.vm.(frames := Alloc(w.vm.frames).0), kernelFrames, w.dirs);
  }

  lemma StepIsSafe(w: World, kernelFrames: nat, op: Op)
    requires Safe(w, kernelFrames) && Enabled(w, op)
    ensures Safe(Step(w, kernelFrames, op), kernelFrames)
  {
    hide Step, Safe;
    match op
    case Create(k) => StepKeeps(w, kernelFrames, op, k);
    case Map(d, _, _, _) => StepKeeps(w, kernelFrames, op, d);
    case Unmap(d, _) => StepKeeps(w, kernelFrames, op, d);
    case Take => TakeIsSafe(w, kernelFrames);
  }

  lemma TakeIsSafe(w: World, kernelFrames: nat)
    requires Safe(w, kernelFrames)
    ensures Safe(Step(w, kernelFrames, Take), kernelFrames)
  {
    TakeKeeps(w, kernelFrames);
  }

  ghost predicate EnabledRun(w: World, kernelFrames: nat, ops: seq<Op>)
    requires Safe(w, kernelFrames)
    decreases |ops|
  {
    ops == [] || (Enabled(w, ops[0])
                  && (StepIsSafe(w, kernelFrames, ops[0]); EnabledRun(Step(w, kernelFrames, ops[0]), kernelFrames, ops[1..])))
  }

  ghost function Run(w: World, kernelFrames: nat, ops: seq<Op>): World
    requires Safe(w, kernelFrames) && EnabledRun(w, kernelFrames, ops)
    decreases |ops|
  {
    if ops == [] then w
    else
      StepIsSafe(w, kernelFrames, ops[0]);
      Run(Step(w, kernelFrames, ops[0]), kernelFrames, ops[1..])
  }

  /** Whatever is created, mapped, unmapped and allocated from a safe state on, tables stay separate, and
      a directory that nobody maps into keeps every translation. */
  lemma {:induction false} RunIsolates(w: World, kernelFrames: nat, ops: seq<Op>, e: nat)
    requires Safe(w, kernelFrames) && EnabledRun(w, kernelFrames, ops) && e in w.dirs
    ensures var r := Run(w, kernelFrames, ops);
            && Safe(r, kernelFrames) && e in r.dirs
            && ((forall op | op in ops :: Spares(op, e)) ==> SameTranslations(w.vm.mem, r.vm.mem, e))
    decreases |ops|
  {
    hide Step, Mapped, VirtToPhys, Separate, Enabled, Spares;
    if ops != [] {
      StepKeeps(w, kernelFrames, ops[0], e);
      RunIsolates(Step(w, kernelFrames, ops[0]), kernelFrames, ops[1..], e);
    }
  }

  ghost predicate SameTranslations(m: Memory, n: Memory, e: nat)
    requires e < FRAMES_MAX
  {
    forall v: word :: Mapped(n, e, v) == Mapped(m, e, v) && VirtToPhys(n, e, v) == VirtToPhys(m, e, v)
  }
}

/** What every frame is used for while address spaces are created, filled, emptied and destroyed
    (kernel/mm/paging.c, kernel/mm/pmm.c): no frame leaks and none is freed twice. */
module PagingFrames {
  import opened Pmm
  import opened Paging

  /** Frames with a role belong to an address space; all others are as they were at the start. */
  datatype Role =
    | Directory
    | Table(dir: nat, i: nat)
    | Leaf4K(dir: nat, i: nat, j: nat)

  type Roles = map<nat, Role>

  predicate Live(roles: Roles, d: nat) { d in roles && roles[d] == Directory }

  ghost predicate RoleHolds(mem: Memory, roles: Roles, f: nat)
    requires f in roles && forall d | d in roles :: d < FRAMES_MAX
  {
    match roles[f]
    case Directory => true
    case Table(d, i) =>
      Live(roles, d) && i < KERNEL_HALF && Present(Entry(mem, d, i)) && FrameOf(Entry(mem, d, i)) == f
    case Leaf4K(d, i, j) =>
      && Live(roles, d) && i < KERNEL_HALF && j < ENTRIES
      && Present(Leaf(mem, d, i, j)) && FrameOf(Leaf(mem, d, i, j)) == f
  }

  ghost predicate TableTracked(mem: Memory, roles: Roles, d: nat, i: nat)
    requires d < FRAMES_MAX && i < ENTRIES
  {
    var e := Entry(mem, d, i);
    Present(e) ==> FrameOf(e) in roles && roles[FrameOf(e)] == Table(d, i)
  }

  ghost predicate LeafTracked(mem: Memory, roles: Roles, d: nat, i: nat, j: nat)
    requires d < FRAMES_MAX && i < ENTRIES && j < ENTRIES
  {
    var e := Leaf(mem, d, i, j);
    Present(e) ==> FrameOf(e) in roles && roles[FrameOf(e)] == Leaf4K(d, i, j)
  }

  /** Roles and the user halves of live directories describe each other exactly. */
  ghost predicate Tracked(mem: Memory, roles: Roles) {
    && (forall f | f in roles :: f < FRAMES_MAX)
    && (forall f | f in roles :: RoleHolds(mem, roles, f))
    && (forall d, i: nat | Live(roles, d) && i < KERNEL_HALF :: TableTracked(mem, roles, d, i))
    && (forall d, i: nat, j: nat | Live(roles, d) && i < KERNEL_HALF && j < ENTRIES :: LeafTracked(mem, roles, d, i, j))
  }

  /** The frames in use are those in use at the start and those with a role. */
  ghost predicate Accounted(frames: Frames, base: Frames, kernelFrames: nat, roles: Roles) {
    && Inv(base, kernelFrames) && Inv(frames, kernelFrames) && frames.total == base.total
    && (forall f | f in roles :: f < FRAMES_MAX && !InUse(base.words, f))
    && forall f: nat | f < FRAMES_MAX :: InUse(frames.words, f) <==> InUse(base.words, f) || f in roles
  }

  // ---------------------------------------------------------------- paging_destroy_directory

  /** The inner loop: the frames mapped by the first n entries of table t are freed. */
  function FreeLeaves(frames: Frames, mem: Memory, t: nat, n: nat): (r: Frames)
    requires |frames.words| == WORDS && t < FRAMES_MAX && n <= ENTRIES
    ensures |r.words| == WORDS
  {
    if n == 0 then frames
    else
      var prior := FreeLeaves(frames, mem, t, n - 1);
      var e := Entry(mem, t, n - 1);
      if Present(e) then Free(prior, FrameOf(e)) else prior
  }

  /** The outer loop: the first n tables, each after the frames it maps. */
  function FreeTables(frames: Frames, mem: Memory, d: nat, n: nat): (r: Frames)
    requires |frames.words| == WORDS && d < FRAMES_MAX && n <= KERNEL_HALF
    ensures |r.words| == WORDS
  {
    if n == 0 then frames
    else
      var prior := FreeTables(frames, mem, d, n - 1);
      var e := Entry(mem, d, n - 1);
      if Present(e) then Free(FreeLeaves(prior, mem, FrameOf(e), ENTRIES), FrameOf(e)) else prior
  }

  /** paging_destroy_directory of a directory other than the kernel's. */
  function Destroy(s: Vm, d: nat): Vm
    requires |s.frames.words| == WORDS && d < FRAMES_MAX
  {
    s.(frames := Free(FreeTables(s.frames, s.mem, d, KERNEL_HALF), d))
  }

  predicate LeafBelow(roles: Roles, f: nat, d: nat, i: nat, n: nat) {
    f in roles && roles[f].Leaf4K? && roles[f].dir == d && roles[f].i == i && roles[f].j < n
  }

  predicate TableBelow(roles: Roles, f: nat, d: nat, n: nat) {
    f in roles && !roles[f].Directory? && roles[f].dir == d && roles[f].i < n
  }

  predicate BelongsTo(roles: Roles, f: nat, d: nat) {
    f in roles && if roles[f].Directory? then f == d else roles[f].dir == d
  }

  /** Nothing reserved ever gets a role. */
  lemma RolesUnreserved(frames: Frames, base: Frames, kernelFrames: nat, roles: Roles, f: nat)
    requires Accounted(frames, base, kernelFrames, roles) && f in roles
    ensures f < FRAMES_MAX && !Reserved(f, kernelFrames, frames.total)
  {}

  lemma {:induction false} FreeLeavesFrees(frames: Frames, mem: Memory, kernelFrames: nat, roles: Roles, d: nat, i: nat, n: nat)
    requires Inv(frames, kernelFrames) && Tracked(mem, roles) && Live(roles, d) && i < KERNEL_HALF && n <= ENTRIES
    requires Present(Entry(mem, d, i))
    requires forall f | f in roles :: !Reserved(f, kernelFrames, frames.total)
    ensures var r := FreeLeaves(frames, mem, FrameOf(Entry(mem, d, i)), n);
            && Inv(r, kernelFrames) && r.total == frames.total
            && forall f: nat | f < FRAMES_MAX ::
                 InUse(r.words, f) <==> InUse(frames.words, f) && !LeafBelow(roles, f, d, i, n)
  {
    assert |frames.words| == WORDS;
    hide Inv, InUse, Free, FrameOf, Entry, Present;
    if n > 0 {
      FreeLeavesFrees(frames, mem, kernelFrames, roles, d, i, n - 1);
      var prior := FreeLeaves(frames, mem, FrameOf(Entry(mem, d, i)), n - 1);
      var e := Leaf(mem, d, i, n - 1);
      assert LeafTracked(mem, roles, d, i, n - 1);
      if Present(e) { FreeKeeps(prior, FrameOf(e), kernelFrames); }
      forall f | f in roles ensures LeafBelow(roles, f, d, i, n) <==> LeafBelow(roles, f, d, i, n - 1) || (Present(e) && f == FrameOf(e)) {
        assert RoleHolds(mem, roles, f);
      }
    }
  }

  lemma {:induction false} FreeTablesFrees(frames: Frames, mem: Memory, kernelFrames: nat, roles: Roles, d: nat, n: nat)
    requires Inv(frames, kernelFrames) && Tracked(mem, roles) && Live(roles, d) && n <= KERNEL_HALF
    requires forall f | f in roles :: !Reserved(f, kernelFrames, frames.total)
    ensures var r := FreeTables(frames, mem, d, n);
            && Inv(r, kernelFrames) && r.total == frames.total
            && forall f: nat | f < FRAMES_MAX ::
                 InUse(r.words, f) <==> InUse(frames.words, f) && !TableBelow(roles, f, d, n)
  {
    assert |frames.words| == WORDS;
    hide Inv, InUse, Free, FrameOf, Entry, FreeLeaves;
    if n > 0 {
      FreeTablesFrees(frames, mem, kernelFrames, roles, d, n - 1);
      var prior := FreeTables(frames, mem, d, n - 1);
      var e := Entry(mem, d, n - 1);
      assert TableTracked(mem, roles, d, n - 1);
      if Present(e) {
        FreeLeavesFrees(prior, mem, kernelFrames, roles, d, n - 1, ENTRIES);
        FreeKeeps(FreeLeaves(prior, mem, FrameOf(e), ENTRIES), FrameOf(e), kernelFrames);
      }
      forall f | f in roles
        ensures TableBelow(roles, f, d, n) <==>
                TableBelow(roles, f, d, n - 1) || (Present(e) && (f == FrameOf(e) || LeafBelow(roles, f, d, n - 1, ENTRIES)))
      {
        assert RoleHolds(mem, roles, f);
      }
    }
  }

  function Without(roles: Roles, d: nat): Roles { map f | f in roles && !BelongsTo(roles, f, d) :: roles[f] }

  /** Destroying a directory frees it, its tables and the frames its user half maps, and nothing else. */
  lemma DestroyFreesOwned(s: Vm, base: Frames, kernelFrames: nat, roles: Roles, d: nat)
    requires Tracked(s.mem, roles) && Accounted(s.frames, base, kernelFrames, roles) && Live(roles, d)
    ensures var r := Destroy(s, d);
            && r.mem == s.mem
            && (forall f: nat | f < FRAMES_MAX ::
                  InUse(r.frames.words, f) <==> InUse(s.frames.words, f) && !BelongsTo(roles, f, d))
            && Accounted(r.frames, base, kernelFrames, Without(roles, d)) && Tracked(r.mem, Without(roles, d))
  {
    assert |s.frames.words| == WORDS;
    hide Inv, InUse, FrameOf, Entry, FreeTables, Free;
    forall f | f in roles ensures !Reserved(f, kernelFrames, s.frames.total) {
      RolesUnreserved(s.frames, base, kernelFrames, roles, f);
    }
    FreeTablesFrees(s.frames, s.mem, kernelFrames, roles, d, KERNEL_HALF);
    FreeKeeps(FreeTables(s.frames, s.mem, d, KERNEL_HALF), d, kernelFrames);
    forall f | f in roles ensures BelongsTo(roles, f, d) <==> f == d || TableBelow(roles, f, d, KERNEL_HALF) {
      assert RoleHolds(s.mem, roles, f);
    }
    DropDirectory(s.mem, roles, d);
  }

  lemma DropDirectory(mem: Memory, roles: Roles, d: nat)
    requires Tracked(mem, roles) && Live(roles, d)
    ensures Tracked(mem, Without(roles, d))
  {
    hide Entry, FrameOf, Leaf, Present;
    var rest := Without(roles, d);
    forall f | f in rest ensures RoleHolds(mem, rest, f) { assert RoleHolds(mem, roles, f); }
    forall e, i: nat | Live(rest, e) && i < KERNEL_HALF ensures TableTracked(mem, rest, e, i) {
      assert TableTracked(mem, roles, e, i);
    }
    forall e, i: nat, j: nat | Live(rest, e) && i < KERNEL_HALF && j < ENTRIES ensures LeafTracked(mem, rest, e, i, j) {
      assert LeafTracked(mem, roles, e, i, j);
    }
  }

  // ---------------------------------------------------------------- filling an address space

  /** The user half of directory e maps what it mapped. */
  ghost predicate SameLeaves(m: Memory, n: Memory, e: nat) {
    e < FRAMES_MAX && forall i: nat, j: nat | i < KERNEL_HALF && j < ENTRIES :: Leaf(n, e, i, j) == Leaf(m, e, i, j)
  }

  ghost predicate OthersSame(m: Memory, n: Memory, roles: Roles, d: nat) {
    forall e | Live(roles, e) && e != d :: SameLeaves(m, n, e)
  }

  lemma OthersTrans(m: Memory, n: Memory, o: Memory, roles: Roles, after: Roles, d: nat)
    requires OthersSame(m, n, roles, d) && OthersSame(n, o, after, d) && forall e | Live(roles, e) :: Live(after, e)
    ensures OthersSame(m, o, roles, d)
  {
    hide Leaf;
  }

  /** A frame that had no role becomes a directory with an empty user half. */
  lemma TrackDirectory(mem: Memory, r: Memory, roles: Roles, d: nat)
    requires Tracked(mem, roles) && d < FRAMES_MAX && d !in roles
    requires forall f: nat, i: nat | f < FRAMES_MAX && i < ENTRIES && f != d :: Entry(r, f, i) == Entry(mem, f, i)
    requires forall i: nat | i < KERNEL_HALF :: Entry(r, d, i) == 0
    ensures Tracked(r, roles[d := Directory]) && OthersSame(mem, r, roles, d)
  {
    hide Entry, FrameOf;
    var after := roles[d := Directory];
    forall e, i: nat | Live(after, e) && i < KERNEL_HALF ensures TableTracked(r, after, e, i) {
      assert Live(roles, e) ==> TableTracked(mem, roles, e, i);
    }
    forall e, i: nat, j: nat | Live(after, e) && i < KERNEL_HALF && j < ENTRIES
      ensures LeafTracked(r, after, e, i, j) && (e != d ==> Leaf(r, e, i, j) == Leaf(mem, e, i, j))
    {
      assert Live(roles, e) ==> TableTracked(mem, roles, e, i) && LeafTracked(mem, roles, e, i, j);
    }
    forall f | f in after ensures RoleHolds(r, after, f) {
      assert f in roles ==> RoleHolds(mem, roles, f);
    }
  }

  /** A zeroed frame that had no role becomes the table of an index that had none. */
  lemma TrackTable(mem: Memory, r: Memory, roles: Roles, d: nat, i: nat, t: nat)
    requires Tracked(mem, roles) && Live(roles, d) && i < KERNEL_HALF && !Present(Entry(mem, d, i))
    requires t < FRAMES_MAX && t !in roles && Present(Entry(r, d, i)) && FrameOf(Entry(r, d, i)) == t
    requires forall j: nat | j < ENTRIES :: Entry(r, t, j) == 0
    requires forall f: nat, k: nat | f < FRAMES_MAX && k < ENTRIES && f != t && (f, k) != (d, i) :: Entry(r, f, k) == Entry(mem, f, k)
    ensures Tracked(r, roles[t := Table(d, i)])
    ensures forall e, k: nat, j: nat | Live(roles, e) && k < KERNEL_HALF && j < ENTRIES :: Leaf(r, e, k, j) == Leaf(mem, e, k, j)
    ensures OthersSame(mem, r, roles, d)
  {
    ZeroAbsent();
    hide Entry, FrameOf, Present;
    var after := roles[t := Table(d, i)];
    forall e, k: nat | Live(after, e) && k < KERNEL_HALF ensures TableTracked(r, after, e, k) {
      assert TableTracked(mem, roles, e, k);
    }
    forall e, k: nat, j: nat | Live(roles, e) && k < KERNEL_HALF && j < ENTRIES
      ensures Leaf(r, e, k, j) == Leaf(mem, e, k, j)
    {
      assert TableTracked(mem, roles, e, k);
    }
    forall e, k: nat, j: nat | Live(after, e) && k < KERNEL_HALF && j < ENTRIES ensures LeafTracked(r, after, e, k, j) {
      assert LeafTracked(mem, roles, e, k, j);
    }
    forall f | f in after ensures RoleHolds(r, after, f) {
      assert f in roles ==> RoleHolds(mem, roles, f);
    }
  }

  /** Only one leaf changes when an entry of a tracked table is written. */
  lemma WriteLeaf(mem: Memory, roles: Roles, d: nat, i: nat, j: nat, leaf: word)
    requires Tracked(mem, roles) && Live(roles, d) && i < KERNEL_HALF && j < ENTRIES && Present(Entry(mem, d, i))
    ensures var r := SetEntry(mem, FrameOf(Entry(mem, d, i)), j, leaf);
            && (forall e, k: nat | Live(roles, e) && k < KERNEL_HALF :: Entry(r, e, k) == Entry(mem, e, k))
            && forall e, k: nat, l: nat | Live(roles, e) && k < KERNEL_HALF && l < ENTRIES ::
                 Leaf(r, e, k, l) == if e == d && k == i && l == j then leaf else Leaf(mem, e, k, l)
    ensures OthersSame(mem, SetEntry(mem, FrameOf(Entry(mem, d, i)), j, leaf), roles, d)
  {
    hide Entry, FrameOf, Present, SetEntry;
    assert TableTracked(mem, roles, d, i);
    var r := SetEntry(mem, FrameOf(Entry(mem, d, i)), j, leaf);
    forall e, k: nat, l: nat | Live(roles, e) && k < KERNEL_HALF && l < ENTRIES
      ensures Leaf(r, e, k, l) == if e == d && k == i && l == j then leaf else Leaf(mem, e, k, l)
    {
      assert TableTracked(mem, roles, e, k);
    }
  }

  /** A frame that had no role is mapped at a page that was not mapped. */
  lemma TrackLeaf(mem: Memory, roles: Roles, d: nat, i: nat, j: nat, leaf: word)
    requires Tracked(mem, roles) && Live(roles, d) && i < KERNEL_HALF && j < ENTRIES && Present(Entry(mem, d, i))
    requires !Present(Leaf(mem, d, i, j)) && Present(leaf) && FrameOf(leaf) !in roles
    ensures Tracked(SetEntry(mem, FrameOf(Entry(mem, d, i)), j, leaf), roles[FrameOf(leaf) := Leaf4K(d, i, j)])
  {
    hide Entry, FrameOf, Present, SetEntry, Leaf;
    WriteLeaf(mem, roles, d, i, j, leaf);
    var r := SetEntry(mem, FrameOf(Entry(mem, d, i)), j, leaf);
    var after := roles[FrameOf(leaf) := Leaf4K(d, i, j)];
    forall e, k: nat | Live(after, e) && k < KERNEL_HALF ensures TableTracked(r, after, e, k) {
      assert TableTracked(mem, roles, e, k);
    }
    forall e, k: nat, l: nat | Live(after, e) && k < KERNEL_HALF && l < ENTRIES ensures LeafTracked(r, after, e, k, l) {
      assert LeafTracked(mem, roles, e, k, l);
    }
    forall f | f in after ensures RoleHolds(r, after, f) {
      assert f in roles ==> RoleHolds(mem, roles, f);
    }
  }

  /** Clearing a leaf takes the role from the frame it mapped. */
  lemma UntrackLeaf(mem: Memory, roles: Roles, d: nat, i: nat, j: nat)
    requires Tracked(mem, roles) && Live(roles, d) && i < KERNEL_HALF && j < ENTRIES && Present(Entry(mem, d, i))
    requires Present(Leaf(mem, d, i, j))
    ensures FrameOf(Leaf(mem, d, i, j)) in roles && roles[FrameOf(Leaf(mem, d, i, j))] == Leaf4K(d, i, j)
    ensures Tracked(SetEntry(mem, FrameOf(Entry(mem, d, i)), j, 0), roles - {FrameOf(Leaf(mem, d, i, j))})
  {
    ZeroAbsent();
    hide Entry, FrameOf, Present, SetEntry, Leaf;
    WriteLeaf(mem, roles, d, i, j, 0);
    assert LeafTracked(mem, roles, d, i, j);
    var r := SetEntry(mem, FrameOf(Entry(mem, d, i)), j, 0);
    var after := roles - {FrameOf(Leaf(mem, d, i, j))};
    forall e, k: nat | Live(after, e) && k < KERNEL_HALF ensures TableTracked(r, after, e, k) {
      assert TableTracked(mem, roles, e, k);
    }
    forall e, k: nat, l: nat | Live(after, e) && k < KERNEL_HALF && l < ENTRIES ensures LeafTracked(r, after, e, k, l) {
      assert LeafTracked(mem, roles, e, k, l);
    }
    forall f | f in after ensures RoleHolds(r, after, f) {
      assert RoleHolds(mem, roles, f);
    }
  }

  // ---------------------------------------------------------------- runs

  /** Whole address-space operations as callers combine them: a page is mapped to a frame just
      allocated (given back when the mapping fails) and its frame is freed when it is unmapped. */
  datatype Op =
    | Create
    | MapFresh(dir: nat, virt: word, flags: nat)
    | UnmapFree(dir: nat, virt: word)
    | Kill(dir: nat)

  datatype Spaces = Spaces(vm: Vm, dirs: set<nat>)

  predicate Enabled(w: Spaces, op: Op)
    requires forall d | d in w.dirs :: d < FRAMES_MAX
  {
    match op
    case Create => true
    case MapFresh(d, virt, flags) =>
      d in w.dirs && virt < 0xC000_0000 && flags < PAGE && !Mapped(w.vm.mem, d, virt)
    case UnmapFree(d, virt) => d in w.dirs && virt < 0xC000_0000 && Mapped(w.vm.mem, d, virt)
    case Kill(d) => d in w.dirs
  }

  function MapFreshStep(s: Vm, d: nat, virt: word, flags: nat): Vm
    requires |s.frames.words| == WORDS && d < FRAMES_MAX && flags < PAGE
  {
    var (frames, f) := Alloc(s.frames);
    if f < 0 then s
    else
      var r := MapPage(s.(frames := frames), d, virt, f * PAGE, flags);
      if Mapped(r.mem, d, virt) then r else r.(frames := Free(r.frames, f))
  }

  function UnmapFreeStep(s: Vm, d: nat, virt: word): Vm
    requires |s.frames.words| == WORDS && d < FRAMES_MAX
  {
    var phys := VirtToPhys(s.mem, d, virt);
    var r := UnmapPage(s, d, virt);
    r.(frames := Free(r.frames, phys / PAGE))
  }

  function Step(w: Spaces, kernelDir: nat, op: Op): Spaces
    requires |w.vm.frames.words| == WORDS && kernelDir < FRAMES_MAX && (forall d | d in w.dirs :: d < FRAMES_MAX)
    requires Enabled(w, op)
  {
    match op
    case Create =>
      var (vm, d) := CreateDirectory(w.vm, kernelDir);
      Spaces(vm, if d < 0 then w.dirs else w.dirs + {d as nat})
    case MapFresh(d, virt, flags) => w.(vm := MapFreshStep(w.vm, d, virt, flags))
    case UnmapFree(d, virt) => w.(vm := UnmapFreeStep(w.vm, d, virt))
    case Kill(d) => Spaces(Destroy(w.vm, d), w.dirs - {d})
  }

  /** The operation does not name directory e. */
  predicate Spares(op: Op, e: nat) { op.Create? || op.dir != e }

  ghost predicate Owned(w: Spaces, base: Frames, kernelFrames: nat, roles: Roles) {
    && Tracked(w.vm.mem, roles) && Accounted(w.vm.frames, base, kernelFrames, roles)
    && (forall d :: d in w.dirs <==> Live(roles, d))
  }

  // each operation keeps the books

  lemma Grant(frames: Frames, base: Frames, kernelFrames: nat, roles: Roles, role: Role)
    requires Accounted(frames, base, kernelFrames, roles) && Alloc(frames).1 >= 0
    ensures Alloc(frames).1 < FRAMES_MAX && Alloc(frames).1 !in roles
    ensures Accounted(Alloc(frames).0, base, kernelFrames, roles[Alloc(frames).1 as nat := role])
  {
    AllocKeeps(frames, kernelFrames);
    assert |frames.words| == WORDS;
    hide Inv, InUse, Alloc;
  }

  lemma Return(frames: Frames, base: Frames, kernelFrames: nat, roles: Roles, f: nat)
    requires Accounted(frames, base, kernelFrames, roles) && f in roles
    ensures Accounted(Free(frames, f), base, kernelFrames, roles - {f})
  {
    RolesUnreserved(frames, base, kernelFrames, roles, f);
    FreeKeeps(frames, f, kernelFrames);
    assert |frames.words| == WORDS;
    hide Inv, InUse, Free;
  }

  lemma SameLive(roles: Roles, f: nat, role: Role)
    requires (f in roles ==> !roles[f].Directory?) && !role.Directory?
    ensures forall d :: Live(roles[f := role], d) <==> Live(roles, d)
    ensures forall d :: Live(roles - {f}, d) <==> Live(roles, d)
  {}

  lemma CreateKeeps(w: Spaces, base: Frames, kernelFrames: nat, k: nat, roles: Roles) returns (after: Roles)
    requires Owned(w, base, kernelFrames, roles) && k < FRAMES_MAX && InUse(base.words, k)
    ensures Owned(Step(w, k, Op.Create), base, kernelFrames, after)
    ensures forall e | e in w.dirs :: SameLeaves(w.vm.mem, Step(w, k, Op.Create).vm.mem, e)
  {
    assert |w.vm.frames.words| == WORDS;
    hide Inv, InUse, Alloc, Entry, CreateDirectory, Tracked;
    CreateDirectoryEntries(w.vm, kernelFrames, k);
    var (vm, d) := CreateDirectory(w.vm, k);
    if d < 0 { return roles; }
    Grant(w.vm.frames, base, kernelFrames, roles, Directory);
    TrackDirectory(w.vm.mem, vm.mem, roles, d);
    after := roles[d as nat := Directory];
  }

  lemma KillKeeps(w: Spaces, base: Frames, kernelFrames: nat, k: nat, roles: Roles, d: nat) returns (after: Roles)
    requires Owned(w, base, kernelFrames, roles) && k < FRAMES_MAX && d in w.dirs
    ensures d < FRAMES_MAX && Owned(Step(w, k, Kill(d)), base, kernelFrames, after)
    ensures forall e | e in w.dirs :: SameLeaves(w.vm.mem, Step(w, k, Kill(d)).vm.mem, e)
  {
    assert |w.vm.frames.words| == WORDS;
    assert forall e | e in w.dirs :: Live(roles, e);
    DestroyFreesOwned(w.vm, base, kernelFrames, roles, d);
    hide Accounted, Tracked, Destroy;
    after := Without(roles, d);
  }

  ghost predicate SameDirectories(roles: Roles, after: Roles) { forall d :: Live(after, d) <==> Live(roles, d) }

  lemma MapTracked(s: Vm, roles: Roles, d: nat, virt: word, f: nat, flags: nat)
    requires |s.frames.words| == WORDS && Tracked(s.mem, roles) && Live(roles, d) && virt < 0xC000_0000 && flags < PAGE
    requires !Mapped(s.mem, d, virt) && Present(Entry(s.mem, d, DirIndex(virt))) && f < FRAMES_MAX && f !in roles
    ensures var r := MapPage(s, d, virt, f * PAGE, flags);
            && r.frames == s.frames && Mapped(r.mem, d, virt)
            && Tracked(r.mem, roles[f := Leaf4K(d, DirIndex(virt), TableIndex(virt))])
            && OthersSame(s.mem, r.mem, roles, d)
  {
    hide OthersSame, Inv, InUse, Alloc, Entry, Leaf, Tracked, Present, FrameOf, SetEntry, DirIndex, TableIndex;
    var leaf := LeafEntry(f * PAGE, flags);
    TrackLeaf(s.mem, roles, d, DirIndex(virt), TableIndex(virt), leaf);
    WriteLeaf(s.mem, roles, d, DirIndex(virt), TableIndex(virt), leaf);
  }

  lemma MapTrackedNew(s: Vm, kernelFrames: nat, roles: Roles, d: nat, virt: word, f: nat, flags: nat)
    requires Inv(s.frames, kernelFrames) && Tracked(s.mem, roles) && Live(roles, d) && virt < 0xC000_0000 && flags < PAGE
    requires !Mapped(s.mem, d, virt) && !Present(Entry(s.mem, d, DirIndex(virt))) && f < FRAMES_MAX && f !in roles
    requires Alloc(s.frames).1 >= 0 ==> Alloc(s.frames).1 !in roles && Alloc(s.frames).1 != f
    ensures var r := MapPage(s, d, virt, f * PAGE, flags);
            var (frames, t) := Alloc(s.frames);
            && (t < 0 ==> r == s)
            && (t >= 0 ==>
                  && t < FRAMES_MAX && r.frames == frames && Mapped(r.mem, d, virt) && OthersSame(s.mem, r.mem, roles, d)
                  && Tracked(r.mem, roles[t as nat := Table(d, DirIndex(virt))][f := Leaf4K(d, DirIndex(virt), TableIndex(virt))]))
  {
    assert |s.frames.words| == WORDS;
    AllocKeeps(s.frames, kernelFrames);
    hide OthersSame, Inv, InUse, Alloc, Entry, Leaf, Tracked, Present, FrameOf, SetEntry, SetFrom, DirIndex, TableIndex;
    var (frames, t) := Alloc(s.frames);
    if t >= 0 {
      var i := DirIndex(virt);
      assert d != t by { assert Live(roles, d); }
      var mem := SetEntry(SetFrom(s.mem, t, 0, seq(ENTRIES, _ => 0)), d, i, TableEntry(t, flags));
      TrackTable(s.mem, mem, roles, d, i, t);
      MapTracked(Vm(mem, frames), roles[t as nat := Table(d, i)], d, virt, f, flags);
      OthersTrans(s.mem, mem, MapPage(Vm(mem, frames), d, virt, f * PAGE, flags).mem, roles, roles[t as nat := Table(d, i)], d);
    }
  }

  ghost predicate Booked(s: Vm, base: Frames, kernelFrames: nat, roles: Roles) {
    Tracked(s.mem, roles) && Accounted(s.frames, base, kernelFrames, roles)
  }

  /** The frame a fresh mapping takes for the page. */
  lemma TakePage(s: Frames, r: Frames, f: nat, base: Frames, kernelFrames: nat, roles: Roles, page: Role)
    requires Accounted(s, base, kernelFrames, roles) && !page.Directory? && Alloc(s) == (r, f)
    ensures f < FRAMES_MAX && f !in roles && Inv(r, kernelFrames) && Free(r, f) == s
    ensures r.total == s.total && r.used == s.used + 1 && (Alloc(r).1 < 0 <==> r.used == r.total)
    ensures Accounted(r, base, kernelFrames, roles[f := page]) && SameDirectories(roles, roles[f := page])
  {
    AllocKeeps(s, kernelFrames);
    AllocKeeps(r, kernelFrames);
    AllocThenFree(s, kernelFrames);
    hide Inv, InUse, Alloc, Accounted, Free;
    Grant(s, base, kernelFrames, roles, page);
  }

  /** The frame it takes for a missing table. */
  lemma TakeTable(s: Frames, r: Frames, t: nat, f: nat, base: Frames, kernelFrames: nat, roles: Roles, page: Role, table: Role)
    requires Accounted(s, base, kernelFrames, roles[f := page]) && SameDirectories(roles, roles[f := page])
    requires !table.Directory? && Alloc(s) == (r, t)
    ensures t < FRAMES_MAX && t !in roles && t != f
    ensures Accounted(r, base, kernelFrames, roles[t := table][f := page])
    ensures SameDirectories(roles, roles[t := table][f := page])
  {
    hide Inv, InUse, Alloc, Accounted;
    Grant(s, base, kernelFrames, roles[f := page], table);
    assert roles[t := table][f := page] == roles[f := page][t := table];
  }

  lemma MapFreshWithTable(s: Vm, base: Frames, kernelFrames: nat, roles: Roles, d: nat, virt: word, flags: nat, f: nat) returns (after: Roles)
    requires Booked(s, base, kernelFrames, roles) && Alloc(s.frames).1 == f
    requires Live(roles, d) && virt < 0xC000_0000 && flags < PAGE && !Mapped(s.mem, d, virt)
    requires Present(Entry(s.mem, d, DirIndex(virt)))
    ensures var r := MapFreshStep(s, d, virt, flags); Mapped(r.mem, d, virt) && Booked(r, base, kernelFrames, after)
    ensures SameDirectories(roles, after) && OthersSame(s.mem, MapFreshStep(s, d, virt, flags).mem, roles, d)
  {
    assert |s.frames.words| == WORDS;
    var page := Leaf4K(d, DirIndex(virt), TableIndex(virt));
    var s1 := Alloc(s.frames).0;
    TakePage(s.frames, s1, f, base, kernelFrames, roles, page);
    hide OthersSame, Inv, InUse, Alloc, Tracked, Accounted, DirIndex, TableIndex, MapPage, Mapped, Leaf, Free, Live, SameDirectories;
    MapTracked(s.(frames := s1), roles, d, virt, f, flags);
    after := roles[f := page];
  }

  /** No frame for the table: the page's frame is given back. */
  lemma MapFreshRefused(s: Vm, kernelFrames: nat, d: nat, virt: word, flags: nat)
    requires Inv(s.frames, kernelFrames) && d < FRAMES_MAX && flags < PAGE && Alloc(s.frames).1 >= 0
    requires !Mapped(s.mem, d, virt) && !Present(Entry(s.mem, d, DirIndex(virt))) && Alloc(Alloc(s.frames).0).1 < 0
    ensures MapFreshStep(s, d, virt, flags) == s
  {
    AllocThenFree(s.frames, kernelFrames);
    AllocKeeps(s.frames, kernelFrames);
    hide Inv, InUse, Alloc, Mapped, Leaf, Free, DirIndex, TableIndex;
  }

  lemma MapFreshNoTable(s: Vm, base: Frames, kernelFrames: nat, roles: Roles, d: nat, virt: word, flags: nat, f: nat, t: nat) returns (after: Roles)
    requires Booked(s, base, kernelFrames, roles) && Alloc(s.frames).1 == f && Alloc(Alloc(s.frames).0).1 == t
    requires Live(roles, d) && virt < 0xC000_0000 && flags < PAGE && !Mapped(s.mem, d, virt)
    requires !Present(Entry(s.mem, d, DirIndex(virt)))
    ensures var r := MapFreshStep(s, d, virt, flags); Mapped(r.mem, d, virt) && Booked(r, base, kernelFrames, after)
    ensures SameDirectories(roles, after) && OthersSame(s.mem, MapFreshStep(s, d, virt, flags).mem, roles, d)
  {
    hide OthersSame, Inv, InUse, Alloc, Tracked, Accounted, DirIndex, TableIndex, MapPage, Mapped, Leaf, Entry, Free, SameDirectories;
    AllWords(s.frames, base, kernelFrames, roles);
    var page, table := Leaf4K(d, DirIndex(virt), TableIndex(virt)), Table(d, DirIndex(virt));
    var s1 := Alloc(s.frames).0;
    TakePage(s.frames, s1, f, base, kernelFrames, roles, page);
    AllWords(s1, base, kernelFrames, roles[f := page]);
    TakeTable(s1, Alloc(s1).0, t, f, base, kernelFrames, roles, page, table);
    MapTrackedNew(s.(frames := s1), kernelFrames, roles, d, virt, f, flags);
    after := roles[t := table][f := page];
  }

  lemma SameAsItself(roles: Roles) ensures SameDirectories(roles, roles) {}

  /** Mapping a fresh frame succeeds exactly when a frame is free for it and another for a missing
      table; otherwise nothing at all changes. */
  lemma MapFreshKeeps(s: Vm, base: Frames, kernelFrames: nat, roles: Roles, d: nat, virt: word, flags: nat) returns (after: Roles)
    requires Booked(s, base, kernelFrames, roles)
    requires Live(roles, d) && virt < 0xC000_0000 && flags < PAGE && !Mapped(s.mem, d, virt)
    ensures var r := MapFreshStep(s, d, virt, flags);
            && Booked(r, base, kernelFrames, after)
            && (Mapped(r.mem, d, virt) <==>
                  s.frames.used + (if Present(Entry(s.mem, d, DirIndex(virt))) then 1 else 2) <= s.frames.total)
            && (!Mapped(r.mem, d, virt) ==> r == s)
    ensures SameDirectories(roles, after) && OthersSame(s.mem, MapFreshStep(s, d, virt, flags).mem, roles, d)
  {
    assert |s.frames.words| == WORDS && s.frames.used <= s.frames.total;
    AllocKeeps(s.frames, kernelFrames);
    hide SameLeaves, Inv, InUse, Alloc, Tracked, Accounted, Present, Mapped, Leaf, Entry, Free, Live, DirIndex, TableIndex, MapPage;
    SameAsItself(roles);
    var (s1, f) := Alloc(s.frames);
    if f < 0 {
      after := roles;
    } else if Present(Entry(s.mem, d, DirIndex(virt))) {
      hide MapFreshStep;
      after := MapFreshWithTable(s, base, kernelFrames, roles, d, virt, flags, f);
    } else {
      hide MapFreshStep, SameDirectories;
      AllocKeeps(s1, kernelFrames);
      var t := Alloc(s1).1;
      if t < 0 {
        MapFreshRefused(s, kernelFrames, d, virt, flags);
        after := roles;
      } else {
        after := MapFreshNoTable(s, base, kernelFrames, roles, d, virt, flags, f, t);
      }
    }
  }

  lemma UnmapFreeKeeps(s: Vm, base: Frames, kernelFrames: nat, roles: Roles, d: nat, virt: word) returns (after: Roles)
    requires Tracked(s.mem, roles) && Accounted(s.frames, base, kernelFrames, roles)
    requires Live(roles, d) && virt < 0xC000_0000 && Mapped(s.mem, d, virt)
    ensures var r := UnmapFreeStep(s, d, virt);
            Tracked(r.mem, after) && Accounted(r.frames, base, kernelFrames, after)
    ensures forall e :: Live(after, e) <==> Live(roles, e)
    ensures OthersSame(s.mem, UnmapFreeStep(s, d, virt).mem, roles, d)
  {
    hide OthersSame, Inv, InUse, Entry, Leaf, Tracked, Accounted, Present, FrameOf, SetEntry, DirIndex, TableIndex, UnmapFreeStep;
    var i, j := DirIndex(virt), TableIndex(virt);
    AllWords(s.frames, base, kernelFrames, roles);
    LiveInRange(s.mem, roles, d);
    AbsentIsUnmapped(s.mem, d, i, j);
    UntrackLeaf(s.mem, roles, d, i, j);
    WriteLeaf(s.mem, roles, d, i, j, 0);
    UnmapFreeIs(s, d, virt);
    var f := FrameOf(Leaf(s.mem, d, i, j));
    Return(s.frames, base, kernelFrames, roles, f);
    SameLive(roles, f, Leaf4K(d, i, j));
    after := roles - {f};
  }

  lemma AllWords(frames: Frames, base: Frames, kernelFrames: nat, roles: Roles)
    requires Accounted(frames, base, kernelFrames, roles)
    ensures |frames.words| == WORDS
  {}

  lemma LiveInRange(mem: Memory, roles: Roles, d: nat)
    requires Tracked(mem, roles) && Live(roles, d)
    ensures d < FRAMES_MAX
  {}

  lemma UnmapFreeIs(s: Vm, d: nat, virt: word)
    requires |s.frames.words| == WORDS && d < FRAMES_MAX && Mapped(s.mem, d, virt)
    ensures var i, j := DirIndex(virt), TableIndex(virt);
            UnmapFreeStep(s, d, virt) ==
            Vm(SetEntry(s.mem, FrameOf(Entry(s.mem, d, i)), j, 0), Free(s.frames, FrameOf(Leaf(s.mem, d, i, j))))
  {
    AbsentIsUnmapped(s.mem, d, DirIndex(virt), TableIndex(virt));
    hide Entry, Leaf, Present, SetEntry, DirIndex, TableIndex, Free;
  }

  lemma AbsentIsUnmapped(mem: Memory, d: nat, i: nat, j: nat)
    requires d < FRAMES_MAX && i < ENTRIES && j < ENTRIES
    ensures Present(Leaf(mem, d, i, j)) ==> Present(Entry(mem, d, i))
  {}

  lemma StepKeeps(w: Spaces, base: Frames, kernelFrames: nat, k: nat, roles: Roles, op: Op) returns (after: Roles)
    requires Owned(w, base, kernelFrames, roles) && k < FRAMES_MAX && InUse(base.words, k)
    requires Enabled(w, op)
    ensures Owned(Step(w, k, op), base, kernelFrames, after)
    ensures forall e | e in w.dirs && Spares(op, e) :: e in Step(w, k, op).dirs && SameLeaves(w.vm.mem, Step(w, k, op).vm.mem, e)
  {
    hide SameLeaves, Destroy, Leaf, CreateDirectory, Inv, InUse;
    match op
    case Create => after := CreateKeeps(w, base, kernelFrames, k, roles);
    case MapFresh(d, virt, flags) =>
      hide MapFreshStep, Tracked, Accounted, Mapped;
      after := MapFreshKeeps(w.vm, base, kernelFrames, roles, d, virt, flags);
    case UnmapFree(d, virt) =>
      hide UnmapFreeStep, Tracked, Accounted, Mapped;
      after := UnmapFreeKeeps(w.vm, base, kernelFrames, roles, d, virt);
    case Kill(d) => after := KillKeeps(w, base, kernelFrames, k, roles, d);
  }

  ghost predicate Sane(w: Spaces) {
    |w.vm.frames.words| == WORDS && forall d | d in w.dirs :: d < FRAMES_MAX
  }

  lemma StepIsSane(w: Spaces, k: nat, op: Op)
    requires Sane(w) && k < FRAMES_MAX && Enabled(w, op)
    ensures Sane(Step(w, k, op))
  {
    hide SetEntry, SetFrom, Mapped, Leaf;
  }

  ghost predicate EnabledRun(w: Spaces, k: nat, ops: seq<Op>)
    requires Sane(w) && k < FRAMES_MAX
    decreases |ops|
  {
    ops == [] || (Enabled(w, ops[0]) && (StepIsSane(w, k, ops[0]); EnabledRun(Step(w, k, ops[0]), k, ops[1..])))
  }

  ghost function Run(w: Spaces, k: nat, ops: seq<Op>): Spaces
    requires Sane(w) && k < FRAMES_MAX && EnabledRun(w, k, ops)
    decreases |ops|
  {
    if ops == [] then w else StepIsSane(w, k, ops[0]); Run(Step(w, k, ops[0]), k, ops[1..])
  }

  lemma {:induction false} RunOwns(w: Spaces, k: nat, ops: seq<Op>, base: Frames, kernelFrames: nat, roles: Roles) returns (after: Roles)
    requires Sane(w) && k < FRAMES_MAX && EnabledRun(w, k, ops)
    requires Owned(w, base, kernelFrames, roles) && InUse(base.words, k)
    ensures Owned(Run(w, k, ops), base, kernelFrames, after)
    decreases |ops|
  {
    after := roles;
    if ops != [] {
      hide Step, Owned, Enabled, InUse;
      StepIsSane(w, k, ops[0]);
      after := StepKeeps(w, base, kernelFrames, k, roles, ops[0]);
      after := RunOwns(Step(w, k, ops[0]), k, ops[1..], base, kernelFrames, after);
    }
  }

  /** The start of a run: no address space yet, whatever frames are in use, the kernel's directory among them. */
  ghost predicate Start(w: Spaces, kernelFrames: nat, k: nat) {
    w.dirs == {} && k < FRAMES_MAX && Inv(w.vm.frames, kernelFrames) && InUse(w.vm.frames.words, k)
  }

  lemma RunKeeps(w: Spaces, ops: seq<Op>, kernelFrames: nat, k: nat) returns (roles: Roles)
    requires Start(w, kernelFrames, k) && EnabledRun(w, k, ops)
    ensures Owned(Run(w, k, ops), w.vm.frames, kernelFrames, roles)
  {
    assert Sane(w);
    hide Run, EnabledRun, Inv, InUse;
    roles := RunOwns(w, k, ops, w.vm.frames, kernelFrames, map[]);
  }

  /** However address spaces are created, filled, emptied and destroyed, once all of them are gone the
      frame bitmap and the count of used frames are exactly what they were. */
  lemma AllFramesReturn(w: Spaces, ops: seq<Op>, kernelFrames: nat, k: nat)
    requires Start(w, kernelFrames, k) && EnabledRun(w, k, ops) && Run(w, k, ops).dirs == {}
    ensures Run(w, k, ops).vm.frames == w.vm.frames
  {
    var r := Run(w, k, ops);
    var roles := RunKeeps(w, ops, kernelFrames, k);
    hide Run, EnabledRun;
    assert forall f | f in roles :: RoleHolds(r.vm.mem, roles, f) && !Live(roles, f);
    SameBits(r.vm.frames, w.vm.frames, kernelFrames);
  }

  lemma FrameOfTranslation(mem: Memory, d: nat, v: word)
    requires d < FRAMES_MAX && Mapped(mem, d, v)
    ensures Present(Leaf(mem, d, DirIndex(v), TableIndex(v)))
    ensures VirtToPhys(mem, d, v) / PAGE == FrameOf(Leaf(mem, d, DirIndex(v), TableIndex(v)))
  {}

  lemma {:induction false} RunSpares(w: Spaces, k: nat, ops: seq<Op>, base: Frames, kernelFrames: nat, roles: Roles, e: nat)
    requires Sane(w) && k < FRAMES_MAX && EnabledRun(w, k, ops)
    requires Owned(w, base, kernelFrames, roles) && InUse(base.words, k) && e in w.dirs && forall op | op in ops :: Spares(op, e)
    ensures e in Run(w, k, ops).dirs && SameLeaves(w.vm.mem, Run(w, k, ops).vm.mem, e)
    decreases |ops|
  {
    hide Step, Owned, Enabled, InUse, Spares, Leaf;
    if ops != [] {
      StepIsSane(w, k, ops[0]);
      var after := StepKeeps(w, base, kernelFrames, k, roles, ops[0]);
      RunSpares(Step(w, k, ops[0]), k, ops[1..], base, kernelFrames, after, e);
    }
  }

  lemma SameLeavesTranslate(m: Memory, n: Memory, e: nat, v: word)
    requires SameLeaves(m, n, e) && v < 0xC000_0000
    ensures Mapped(n, e, v) == Mapped(m, e, v) && VirtToPhys(n, e, v) == VirtToPhys(m, e, v)
  {
    hide Leaf;
  }

  /** In any reachable state: a directory that the following operations do not name keeps every translation
      of its user half, while others are created, filled, emptied and destroyed and frames are recycled. */
  lemma UnnamedKeepsTranslations(w: Spaces, ops: seq<Op>, r: Spaces, more: seq<Op>, kernelFrames: nat, k: nat, e: nat)
    requires Start(w, kernelFrames, k) && EnabledRun(w, k, ops) && r == Run(w, k, ops)
    requires e in r.dirs && forall op | op in more :: Spares(op, e)
    ensures Sane(r)
    ensures EnabledRun(r, k, more) ==>
              e < FRAMES_MAX && e in Run(r, k, more).dirs
              && forall v: word | v < 0xC000_0000 ::
                   && Mapped(Run(r, k, more).vm.mem, e, v) == Mapped(r.vm.mem, e, v)
                   && VirtToPhys(Run(r, k, more).vm.mem, e, v) == VirtToPhys(r.vm.mem, e, v)
  {
    var roles := RunKeeps(w, ops, kernelFrames, k);
    OwnedIsSane(r, w.vm.frames, kernelFrames, roles);
    hide Run, EnabledRun, Owned, InUse, Inv, Mapped, VirtToPhys, SameLeaves, Spares;
    if EnabledRun(r, k, more) {
      RunSpares(r, k, more, w.vm.frames, kernelFrames, roles, e);
      forall v: word | v < 0xC000_0000
        ensures Mapped(Run(r, k, more).vm.mem, e, v) == Mapped(r.vm.mem, e, v)
                && VirtToPhys(Run(r, k, more).vm.mem, e, v) == VirtToPhys(r.vm.mem, e, v)
      {
        SameLeavesTranslate(r.vm.mem, Run(r, k, more).vm.mem, e, v);
      }
    }
  }

  lemma OwnedIsSane(w: Spaces, base: Frames, kernelFrames: nat, roles: Roles)
    requires Owned(w, base, kernelFrames, roles)
    ensures Sane(w)
  {
    hide InUse;
  }

  /** No frame is mapped twice in the user halves, neither in one directory nor in two. */
  lemma NoSharedFrames(w: Spaces, ops: seq<Op>, r: Spaces, kernelFrames: nat, k: nat, d: nat, e: nat, v: word, u: word)
    requires Start(w, kernelFrames, k) && EnabledRun(w, k, ops) && r == Run(w, k, ops)
    requires d in r.dirs && e in r.dirs && d < FRAMES_MAX && e < FRAMES_MAX && v < 0xC000_0000 && u < 0xC000_0000
    requires Mapped(r.vm.mem, d, v) && Mapped(r.vm.mem, e, u)
    requires VirtToPhys(r.vm.mem, d, v) / PAGE == VirtToPhys(r.vm.mem, e, u) / PAGE
    ensures d == e && v / PAGE == u / PAGE
  {
    var roles := RunKeeps(w, ops, kernelFrames, k);
    var mem := r.vm.mem;
    FrameOfTranslation(mem, d, v);
    FrameOfTranslation(mem, e, u);
    hide Run, EnabledRun, Inv, Accounted, Step, InUse, Mapped, VirtToPhys;
    assert LeafTracked(mem, roles, d, DirIndex(v), TableIndex(v)) && LeafTracked(mem, roles, e, DirIndex(u), TableIndex(u));
    SamePage(v, u);
    hide Leaf, DirIndex, TableIndex, FrameOf;
  }
}

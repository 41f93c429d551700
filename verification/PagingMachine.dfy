/** kernel/mm/paging.c in place: directories and tables are frames of physical memory, written entry
    by entry. Every method is tied to the function of Paging or PagingFrames that it computes. */
module PagingMachine {
  import opened Bytes
  import opened Pmm
  import opened Paging
  import opened PagingFrames

  lemma SetFromEmpty(mem: Memory, f: nat, from: nat)
    requires f < FRAMES_MAX && from <= ENTRIES
    ensures SetFrom(mem, f, from, []) == mem
  {}

  lemma SetFromNext(mem: Memory, f: nat, from: nat, v: seq<word>, e: word)
    requires f < FRAMES_MAX && from + |v| < ENTRIES
    ensures SetFrom(mem, f, from, v + [e]) == SetEntry(SetFrom(mem, f, from, v), f, from + |v|, e)
  {}

  lemma SetFromTwice(mem: Memory, f: nat, u: seq<word>, v: seq<word>)
    requires f < FRAMES_MAX && |u| <= |v| <= ENTRIES
    ensures SetFrom(SetFrom(mem, f, 0, u), f, 0, v) == SetFrom(mem, f, 0, v)
  {}

  /** One turn of the loop that copies the kernel half of directory k to d. */
  lemma CopyOne(was: Memory, d: nat, k: nat, n: nat)
    requires d < FRAMES_MAX && k < FRAMES_MAX && d != k && n < ENTRIES - KERNEL_HALF
    ensures var upper := KernelEntries(was, k);
            var now := SetFrom(was, d, KERNEL_HALF, upper[..n]);
            SetFrom(was, d, KERNEL_HALF, upper[..n + 1]) == SetEntry(now, d, KERNEL_HALF + n, Entry(now, k, KERNEL_HALF + n))
  {
    hide SetFrom, KernelEntries, Entry, SetEntry;
    var upper := KernelEntries(was, k);
    SetFromNext(was, d, KERNEL_HALF, upper[..n], upper[n]);
    assert upper[..n] + [upper[n]] == upper[..n + 1];
  }

  class Machine {
    const mem: array<word>
    const frames: FrameAllocator

    ghost predicate Valid()
      reads this, mem, frames, frames.bitmap
    {
      mem.Length == MEMORY && frames.bitmap.Length == WORDS
    }

    ghost function State(): Vm
      requires Valid()
      reads this, mem, frames, frames.bitmap
    {
      Vm(mem[..], frames.State())
    }

    /** pmm_init, then paging_init with the kernel's directory k and its four tables. */
    constructor (memKb: nat, kernelEnd: nat, k: nat, t0: nat, t1: nat, h0: nat, h1: nat)
      requires memKb < U32 && kernelEnd < U32 && Distinct(k, t0, t1, h0, h1)
      requires k < FRAMES_MAX && t0 < FRAMES_MAX && t1 < FRAMES_MAX && h0 < FRAMES_MAX && h1 < FRAMES_MAX
      ensures Valid() && Inv(State().frames, FirstFrame(kernelEnd))
      ensures exists m: Memory :: State().mem == BootMemory(m, k, t0, t1, h0, h1)
    {
      mem := new word[MEMORY];
      frames := new FrameAllocator(memKb, kernelEnd);
      new;
      hide SetFrom, BootDirectory, Identity, Inv;
      ghost var was := mem[..];
      FillIdentity(t0, 0);
      FillIdentity(t1, 0x40_0000);
      FillIdentity(h0, 0);
      FillIdentity(h1, 0x40_0000);
      InstallTables(k, t0, t1, h0, h1);
      assert mem[..] == BootMemory(was, k, t0, t1, h0, h1);
    }

    method InstallTables(k: nat, t0: nat, t1: nat, h0: nat, h1: nat)
      requires Valid() && k < FRAMES_MAX && t0 < FRAMES_MAX && t1 < FRAMES_MAX && h0 < FRAMES_MAX && h1 < FRAMES_MAX
      modifies mem
      ensures mem[..] == SetFrom(old(mem[..]), k, 0, BootDirectory(t0, t1, h0, h1))
    {
      Clear(k, ENTRIES);
      mem[1024 * k + 0] := t0 * PAGE + 3;
      mem[1024 * k + 1] := t1 * PAGE + 3;
      mem[1024 * k + 768] := h0 * PAGE + 3;
      mem[1024 * k + 769] := h1 * PAGE + 3;
    }

    /** `entries[i]` of the table or directory in frame f. */
    function GetEntry(f: nat, i: nat): (e: word)
      requires Valid() && f < FRAMES_MAX && i < ENTRIES
      reads this, mem, frames, frames.bitmap
      ensures e == Entry(mem[..], f, i)
    {
      mem[1024 * f + i]
    }

    method PutEntry(f: nat, i: nat, e: word)
      requires Valid() && f < FRAMES_MAX && i < ENTRIES
      modifies mem
      ensures mem[..] == SetEntry(old(mem[..]), f, i, e)
    {
      mem[1024 * f + i] := e;
    }

    /** One static table: zeroed, then every entry maps the next frame from `from` on. */
    method FillIdentity(f: nat, from: nat)
      requires Valid() && f < FRAMES_MAX && from <= 0x40_0000
      modifies mem
      ensures mem[..] == SetFrom(old(mem[..]), f, 0, Identity(from))
    {
      Clear(f, ENTRIES);
      hide SetFrom, SetEntry, Identity;
      ghost var cleared := mem[..];
      ghost var v := Identity(from);
      SetFromEmpty(cleared, f, 0);
      for i := 0 to ENTRIES
        invariant mem[..] == SetFrom(cleared, f, 0, v[..i])
      {
        SetFromNext(cleared, f, 0, v[..i], v[i]);
        assert v[..i] + [v[i]] == v[..i + 1];
        PutEntry(f, i, from + i * PAGE + 3);
      }
      assert v[..ENTRIES] == v;
      SetFromTwice(old(mem[..]), f, seq(ENTRIES, _ => 0), v);
    }

    /** The loops that fill entries from..to of frame f with one value. */
    method Clear(f: nat, to: nat)
      requires Valid() && f < FRAMES_MAX && to <= ENTRIES
      modifies mem
      ensures mem[..] == SetFrom(old(mem[..]), f, 0, seq(to, _ => 0))
    {
      hide SetFrom, SetEntry;
      SetFromEmpty(mem[..], f, 0);
      assert seq(0, _ => 0 as word) == [];
      for i := 0 to to
        invariant mem[..] == SetFrom(old(mem[..]), f, 0, seq(i, _ => 0))
      {
        SetFromNext(old(mem[..]), f, 0, seq(i, _ => 0), 0);
        assert seq(i, _ => 0 as word) + [0] == seq(i + 1, _ => 0 as word);
        PutEntry(f, i, 0);
      }
    }

    /** alloc_table, -1 for NULL. */
    method NewTable() returns (t: int)
      requires Valid()
      modifies mem, frames`used, frames.bitmap
      ensures (State(), t) == AllocTable(old(State()))
    {
      t := frames.Allocate();
      if t >= 0 {
        Clear(t, ENTRIES);
      }
    }

    method Map(d: nat, virt: word, phys: word, flags: word)
      requires Valid() && d < FRAMES_MAX
      modifies mem, frames`used, frames.bitmap
      ensures State() == MapPage(old(State()), d, virt, phys, flags)
    {
      hide SetEntry, Entry, Alloc, SetFrom;
      var i, j := virt / 0x40_0000, virt / 4096 % 1024;
      var t: int;
      if Present(GetEntry(d, i)) {
        t := FrameOf(GetEntry(d, i));
      } else {
        t := NewTable();
        if t < 0 { return; }
        PutEntry(d, i, TableEntry(t, flags));
      }
      PutEntry(t, j, LeafEntry(phys, flags));
    }

    method Unmap(d: nat, virt: word)
      requires Valid() && d < FRAMES_MAX
      modifies mem
      ensures State() == UnmapPage(old(State()), d, virt)
    {
      var i, j := virt / 0x40_0000, virt / 4096 % 1024;
      if !Present(mem[1024 * d + i]) { return; }
      mem[1024 * FrameOf(mem[1024 * d + i]) + j] := 0;
    }

    method Translate(d: nat, virt: word) returns (phys: word)
      requires Valid() && d < FRAMES_MAX
      ensures phys == VirtToPhys(State().mem, d, virt)
    {
      var i, j := virt / 0x40_0000, virt / 4096 % 1024;
      if !Present(mem[1024 * d + i]) { return 0; }
      var e := mem[1024 * FrameOf(mem[1024 * d + i]) + j];
      if !Present(e) { return 0; }
      return FrameOf(e) * PAGE + virt % PAGE;
    }

    /** The loop that copies the kernel half of directory k. */
    method CopyKernelHalf(d: nat, k: nat)
      requires Valid() && d < FRAMES_MAX && k < FRAMES_MAX && d != k
      modifies mem
      ensures mem[..] == SetFrom(old(mem[..]), d, KERNEL_HALF, KernelEntries(old(mem[..]), k))
    {
      hide SetFrom, KernelEntries, SetEntry, Entry;
      ghost var was := mem[..];
      ghost var upper := KernelEntries(was, k);
      SetFromEmpty(was, d, KERNEL_HALF);
      for i := KERNEL_HALF to ENTRIES
        invariant mem[..] == SetFrom(was, d, KERNEL_HALF, upper[..i - KERNEL_HALF])
      {
        CopyOne(was, d, k, i - KERNEL_HALF);
        PutEntry(d, i, GetEntry(k, i));
      }
      assert upper[..256] == upper;
    }

    /** paging_create_directory, -1 for NULL; k is the frame of the kernel's directory. */
    method Create(k: nat) returns (d: int)
      requires Valid() && k < FRAMES_MAX && InUse(frames.bitmap[..], k)
      modifies mem, frames`used, frames.bitmap
      ensures (State(), d) == CreateDirectory(old(State()), k)
    {
      d := frames.Allocate();
      if d >= 0 {
        Clear(d, KERNEL_HALF);
        CopyKernelHalf(d, k);
      }
    }

    /** paging_destroy_directory; k is the frame of the kernel's directory, d negative for NULL. */
    method DestroySpace(d: int, k: nat)
      requires Valid() && d < FRAMES_MAX
      modifies frames`used, frames.bitmap
      ensures State() == if d < 0 || d == k then old(State()) else Destroy(old(State()), d)
    {
      if d < 0 || d == k { return; }
      ghost var was := State();
      for i := 0 to KERNEL_HALF
        invariant State() == was.(frames := FreeTables(was.frames, was.mem, d, i))
      {
        ghost var prior := frames.State();
        var e := mem[1024 * d + i];
        if !Present(e) { continue; }
        for j := 0 to ENTRIES
          invariant State() == was.(frames := FreeLeaves(prior, was.mem, FrameOf(e), j))
        {
          var leaf := mem[1024 * FrameOf(e) + j];
          if Present(leaf) {
            frames.Release(FrameOf(leaf));
          }
        }
        frames.Release(FrameOf(e));
      }
      frames.Release(d);
    }
  }
}

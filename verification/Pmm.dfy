/** The physical frame allocator (kernel/mm/pmm.c): one bit per 4 KiB frame in 32-bit words, set
    when the frame is in use. */
module Pmm {
  import opened Bytes

  const PAGE: nat := 4096
  const FRAMES_MAX: nat := 0x10_0000
  const WORDS: nat := 0x8000       // BITMAP_SIZE

  datatype Frames = Frames(words: seq<nat>, total: nat, used: nat)

  predicate InUse(words: seq<nat>, f: nat)
    requires f < 32 * |words|
  {
    Bit(words[f / 32], f % 32)
  }

  ghost predicate Shape(s: Frames) {
    |s.words| == WORDS && s.total <= FRAMES_MAX && forall w | 0 <= w < WORDS :: s.words[w] < U32
  }

  function CountUsed(words: seq<nat>, n: nat): (c: nat)
    requires n <= 32 * |words|
    ensures c <= n
  {
    if n == 0 then 0 else CountUsed(words, n - 1) + (if InUse(words, n - 1) then 1 else 0)
  }

  /** `first_free` of pmm_init: the frame behind the kernel; the sum is 32-bit. */
  function FirstFrame(kernelEnd: nat): nat { (kernelEnd + PAGE - 1) % U32 / PAGE }

  /** Frames that are never handed out: below 1 MiB, below the end of the kernel, past the end of RAM. */
  predicate Reserved(f: nat, kernelFrames: nat, total: nat) { f < 256 || f < kernelFrames || f >= total }

  ghost predicate Inv(s: Frames, kernelFrames: nat) {
    && Shape(s) && s.used == CountUsed(s.words, s.total)
    && forall f: nat | f < FRAMES_MAX && Reserved(f, kernelFrames, s.total) :: InUse(s.words, f)
  }

  function SetFrame(words: seq<nat>, f: nat): (r: seq<nat>)
    requires f < 32 * |words|
    ensures |r| == |words|
    ensures forall g: nat | g < 32 * |words| :: InUse(r, g) <==> g == f || InUse(words, g)
  {
    var r := words[f / 32 := SetBit(words[f / 32], f % 32)];
    assert forall g: nat | g < 32 * |words| :: InUse(r, g) <==> g == f || InUse(words, g) by {
      forall g: nat | g < 32 * |words| ensures InUse(r, g) <==> g == f || InUse(words, g) {
        SetBitAt(words[f / 32], f % 32, g % 32);
      }
    }
    r
  }

  function ClearFrame(words: seq<nat>, f: nat): (r: seq<nat>)
    requires f < 32 * |words|
    ensures |r| == |words|
    ensures forall g: nat | g < 32 * |words| :: InUse(r, g) <==> g != f && InUse(words, g)
  {
    var r := words[f / 32 := ClearBit(words[f / 32], f % 32)];
    assert forall g: nat | g < 32 * |words| :: InUse(r, g) <==> g != f && InUse(words, g) by {
      forall g: nat | g < 32 * |words| ensures InUse(r, g) <==> g != f && InUse(words, g) {
        ClearBitAt(words[f / 32], f % 32, g % 32);
      }
    }
    r
  }

  /** The lowest free frame at or after f; -1 when there is none. */
  function FirstFree(words: seq<nat>, f: nat): (r: int)
    requires f <= 32 * |words|
    ensures r == -1 || f <= r < 32 * |words|
    ensures r >= 0 ==> !InUse(words, r) && forall g | f <= g < r :: InUse(words, g)
    ensures r == -1 ==> forall g | f <= g < 32 * |words| :: InUse(words, g)
    decreases 32 * |words| - f
  {
    if f == 32 * |words| then -1 else if !InUse(words, f) then f else FirstFree(words, f + 1)
  }

  /** pmm_alloc: the frame number, -1 for NULL. */
  function Alloc(s: Frames): (r: (Frames, int))
    requires |s.words| == WORDS
  {
    var f := FirstFree(s.words, 0);
    if f < 0 then (s, -1) else (s.(words := SetFrame(s.words, f), used := s.used + 1), f)
  }

  /** pmm_free of frame f. */
  function Free(s: Frames, f: nat): Frames
    requires |s.words| == WORDS && f < FRAMES_MAX
  {
    if InUse(s.words, f) then s.(words := ClearFrame(s.words, f), used := (s.used + U32 - 1) % U32) else s
  }

  // ---------------------------------------------------------------- what the operations keep

  lemma {:induction false} CountSet(words: seq<nat>, f: nat, n: nat)
    requires f < 32 * |words| && n <= 32 * |words| && !InUse(words, f)
    ensures CountUsed(SetFrame(words, f), n) == CountUsed(words, n) + (if f < n then 1 else 0)
  {
    hide SetFrame;
    if n > 0 { CountSet(words, f, n - 1); }
  }

  lemma {:induction false} CountClear(words: seq<nat>, f: nat, n: nat)
    requires f < 32 * |words| && n <= 32 * |words| && InUse(words, f)
    ensures CountUsed(ClearFrame(words, f), n) == CountUsed(words, n) - (if f < n then 1 else 0)
  {
    hide ClearFrame;
    if n > 0 { CountClear(words, f, n - 1); }
  }

  lemma SetShape(words: seq<nat>, f: nat)
    requires |words| == WORDS && f < FRAMES_MAX && forall w | 0 <= w < WORDS :: words[w] < U32
    ensures forall w | 0 <= w < WORDS :: SetFrame(words, f)[w] < U32 && ClearFrame(words, f)[w] < U32
  {
    PowersOfTwo();
    SetBitFits(words[f / 32], f % 32, 32);
  }

  /** pmm_alloc hands out the lowest free frame, which lies in RAM above the kernel and above 1 MiB;
      it fails exactly when every frame is in use, and keeps used_frames the number of set bits. */
  lemma AllocKeeps(s: Frames, kernelFrames: nat)
    requires Inv(s, kernelFrames)
    ensures var (r, f) := Alloc(s);
            && Inv(r, kernelFrames) && r.total == s.total
            && (f < 0 <==> s.used == s.total)
            && (f < 0 ==> r == s)
            && (f >= 0 ==>
                  && 256 <= f < s.total && kernelFrames <= f && !InUse(s.words, f) && r.used == s.used + 1
                  && (forall g: nat | g < f :: InUse(s.words, g))
                  && forall g: nat | g < FRAMES_MAX :: InUse(r.words, g) <==> g == f || InUse(s.words, g))
  {
    var f := FirstFree(s.words, 0);
    if f >= 0 {
      CountSet(s.words, f, s.total);
      SetShape(s.words, f);
      hide SetFrame;
      assert !Reserved(f, kernelFrames, s.total);
    }
    CountFull(s.words, s.total);
  }

  /** The frame behind the kernel starts at or behind its end, less than a page behind it, exactly as long as
      rounding up does not leave 32 bits; when it does, it is frame 0. */
  lemma FirstFrameIff(kernelEnd: nat)
    requires kernelEnd < U32
    ensures kernelEnd <= PAGE * FirstFrame(kernelEnd) < kernelEnd + PAGE <==> kernelEnd <= U32 - PAGE
    ensures kernelEnd > U32 - PAGE ==> FirstFrame(kernelEnd) == 0
  {}

  /** A frame handed out after pmm_init lies in RAM, above the first MiB and behind the whole kernel. */
  lemma FramesAreUsable(s: Frames, memKb: nat, kernelEnd: nat)
    requires memKb < U32 && kernelEnd <= U32 - PAGE && s.total == memKb * 1024 % U32 / PAGE && Inv(s, FirstFrame(kernelEnd))
    ensures var f := Alloc(s).1;
            f >= 0 ==> PAGE * f >= 0x10_0000 && PAGE * f >= kernelEnd && PAGE * (f + 1) <= 1024 * memKb
  {
    AllocKeeps(s, FirstFrame(kernelEnd));
    FirstFrameIff(kernelEnd);
    hide Inv, Alloc, InUse, FirstFrame;
    assert memKb * 1024 % U32 <= memKb * 1024;
  }

  lemma {:induction false} CountFull(words: seq<nat>, n: nat)
    requires n <= 32 * |words|
    ensures CountUsed(words, n) == n <==> forall f: nat | f < n :: InUse(words, f)
  {
    if n > 0 { CountFull(words, n - 1); }
  }

  /** pmm_free makes exactly that frame free. */
  lemma FreeKeeps(s: Frames, f: nat, kernelFrames: nat)
    requires Inv(s, kernelFrames) && f < FRAMES_MAX && !Reserved(f, kernelFrames, s.total)
    ensures var r := Free(s, f);
            && Inv(r, kernelFrames) && r.total == s.total
            && forall g: nat | g < FRAMES_MAX :: InUse(r.words, g) <==> g != f && InUse(s.words, g)
  {
    if InUse(s.words, f) {
      CountClear(s.words, f, s.total);
      SetShape(s.words, f);
      hide ClearFrame;
    }
  }

  /** pmm_free checks nothing: of any frame at all it clears the bit, and the allocator's invariant survives
      exactly when the frame was not a reserved one. */
  lemma FreeKeepsIff(s: Frames, f: nat, kernelFrames: nat)
    requires Inv(s, kernelFrames) && f < FRAMES_MAX
    ensures var r := Free(s, f);
            && |r.words| == WORDS && (Inv(r, kernelFrames) <==> !Reserved(f, kernelFrames, s.total))
            && forall g: nat | g < FRAMES_MAX :: InUse(r.words, g) <==> g != f && InUse(s.words, g)
  {
    if Reserved(f, kernelFrames, s.total) {
      hide ClearFrame, CountUsed;
      assert InUse(s.words, f) && !InUse(Free(s, f).words, f);
    } else {
      FreeKeeps(s, f, kernelFrames);
    }
  }

  /** Allocating and freeing at once restores bitmap and count. */
  lemma AllocThenFree(s: Frames, kernelFrames: nat)
    requires Inv(s, kernelFrames) && Alloc(s).1 >= 0
    ensures Free(Alloc(s).0, Alloc(s).1) == s
  {
    AllocKeeps(s, kernelFrames);
    var (r, f) := Alloc(s);
    FreeKeeps(r, f, kernelFrames);
    hide Inv, InUse, Alloc, Free;
    SameBits(Free(r, f), s, kernelFrames);
  }

  /** The set of frames in use determines the bitmap and the count. */
  lemma SameBits(s: Frames, r: Frames, kernelFrames: nat)
    requires Inv(s, kernelFrames) && Inv(r, kernelFrames) && s.total == r.total
    requires forall f: nat | f < FRAMES_MAX :: InUse(s.words, f) <==> InUse(r.words, f)
    ensures s == r
  {
    PowersOfTwo();
    forall w | 0 <= w < WORDS ensures s.words[w] == r.words[w] {
      forall i: nat | i < 32 ensures Bit(s.words[w], i) == Bit(r.words[w], i) {
        assert InUse(s.words, 32 * w + i) <==> InUse(r.words, 32 * w + i);
      }
      BitsDetermine(s.words[w], r.words[w], 32);
    }
    assert s.words == r.words;
  }

  lemma {:induction false} BitsDetermine(v: nat, w: nat, n: nat)
    requires v < Pow2(n) && w < Pow2(n) && forall i: nat | i < n :: Bit(v, i) == Bit(w, i)
    ensures v == w
  {
    if n > 0 {
      assert Bit(v, 0) == Bit(w, 0);
      forall i: nat | i < n - 1 ensures Bit(v / 2, i) == Bit(w / 2, i) {
        assert Bit(v, i + 1) == Bit(w, i + 1);
      }
      BitsDetermine(v / 2, w / 2, n - 1);
    }
  }

  // ---------------------------------------------------------------- the allocator in place

  class FrameAllocator {
    const bitmap: array<nat>
    var total: nat
    var used: nat

    ghost function State(): Frames
      reads this, bitmap
    {
      Frames(bitmap[..], total, used)
    }

    ghost predicate Valid(kernelFrames: nat)
      reads this, bitmap
    {
      bitmap.Length == WORDS && Inv(State(), kernelFrames)
    }

    /** pmm_init; the products and sums are 32-bit. */
    constructor (memKb: nat, kernelEnd: nat)
      requires memKb < U32 && kernelEnd < U32
      ensures Valid(FirstFrame(kernelEnd))
      ensures total == memKb * 1024 % U32 / PAGE
      ensures forall f: nat | f < FRAMES_MAX ::
                InUse(bitmap[..], f) <==> Reserved(f, FirstFrame(kernelEnd), total)
    {
      bitmap := new nat[WORDS];
      total := memKb * 1024 % U32 / PAGE;
      used := 0;
      new;
      FillAll();
      ClearRange(FirstFrame(kernelEnd), total);
      SetBelow(256);
      ghost var words := bitmap[..];
      for i := 0 to total
        invariant bitmap[..] == words && used == CountUsed(words, i) && total == memKb * 1024 % U32 / PAGE
      {
        if Test(i) {
          used := used + 1;
        }
      }
    }

    predicate Test(f: nat)
      requires bitmap.Length == WORDS && f < FRAMES_MAX
      reads bitmap
    {
      Bit(bitmap[f / 32], f % 32)
    }

    method FillAll()
      requires bitmap.Length == WORDS
      modifies bitmap
      ensures forall w | 0 <= w < WORDS :: bitmap[w] == 0xFFFF_FFFF
      ensures forall f: nat | f < FRAMES_MAX :: InUse(bitmap[..], f)
    {
      for i := 0 to WORDS
        invariant forall w | 0 <= w < i :: bitmap[w] == 0xFFFF_FFFF
      {
        bitmap[i] := 0xFFFF_FFFF;
      }
      PowersOfTwo();
      forall f: nat | f < FRAMES_MAX ensures InUse(bitmap[..], f) {
        FullWord(32, f % 32);
      }
    }

    method ClearRange(from: nat, to: nat)
      requires bitmap.Length == WORDS && to <= FRAMES_MAX && forall w | 0 <= w < WORDS :: bitmap[w] < U32
      modifies bitmap
      ensures forall w | 0 <= w < WORDS :: bitmap[w] < U32
      ensures forall f: nat | f < FRAMES_MAX :: InUse(bitmap[..], f) <==> InUse(old(bitmap[..]), f) && !(from <= f < to)
    {
      var i := from;
      while i < to
        invariant forall w | 0 <= w < WORDS :: bitmap[w] < U32
        invariant from <= i
        invariant forall f: nat | f < FRAMES_MAX ::
                    InUse(bitmap[..], f) <==> InUse(old(bitmap[..]), f) && !(from <= f < i && f < to)
      {
        SetShape(bitmap[..], i);
        ghost var was := bitmap[..];
        bitmap[i / 32] := ClearBit(bitmap[i / 32], i % 32);
        assert bitmap[..] == ClearFrame(was, i);
        i := i + 1;
      }
    }

    method SetBelow(n: nat)
      requires bitmap.Length == WORDS && n <= FRAMES_MAX && forall w | 0 <= w < WORDS :: bitmap[w] < U32
      modifies bitmap
      ensures forall w | 0 <= w < WORDS :: bitmap[w] < U32
      ensures forall f: nat | f < FRAMES_MAX :: InUse(bitmap[..], f) <==> InUse(old(bitmap[..]), f) || f < n
    {
      for i := 0 to n
        invariant forall w | 0 <= w < WORDS :: bitmap[w] < U32
        invariant forall f: nat | f < FRAMES_MAX :: InUse(bitmap[..], f) <==> InUse(old(bitmap[..]), f) || f < i
      {
        SetShape(bitmap[..], i);
        ghost var was := bitmap[..];
        bitmap[i / 32] := SetBit(bitmap[i / 32], i % 32);
        assert bitmap[..] == SetFrame(was, i);
      }
    }

    /** bitmap_first_free: words that are all ones are skipped, the others searched bit by bit. */
    method FirstFreeFrame() returns (f: int)
      requires bitmap.Length == WORDS
      ensures f == FirstFree(bitmap[..], 0)
    {
      for i := 0 to WORDS
        invariant FirstFree(bitmap[..], 0) == FirstFree(bitmap[..], 32 * i)
      {
        if bitmap[i] == 0xFFFF_FFFF {
          SkipFullWord(bitmap[..], i);
          continue;
        }
        for bit := 0 to 32
          invariant FirstFree(bitmap[..], 0) == FirstFree(bitmap[..], 32 * i + bit)
        {
          assert (32 * i + bit) / 32 == i && (32 * i + bit) % 32 == bit;
          if !Bit(bitmap[i], bit) {
            return 32 * i + bit;
          }
        }
      }
      return -1;
    }

    /** pmm_alloc, returning the frame number (-1 for NULL) instead of the address. */
    method Allocate() returns (f: int)
      requires bitmap.Length == WORDS
      modifies this`used, bitmap
      ensures (State(), f) == Alloc(old(State()))
    {
      f := FirstFreeFrame();
      if f < 0 {
        return;
      }
      ghost var was := bitmap[..];
      bitmap[f / 32] := SetBit(bitmap[f / 32], f % 32);
      used := used + 1;
      assert bitmap[..] == SetFrame(was, f);
    }

    method Release(f: nat)
      requires bitmap.Length == WORDS && f < FRAMES_MAX
      modifies this`used, bitmap
      ensures State() == Free(old(State()), f)
    {
      if Test(f) {
        ghost var was := bitmap[..];
        bitmap[f / 32] := ClearBit(bitmap[f / 32], f % 32);
        used := (used + U32 - 1) % U32;
        assert bitmap[..] == ClearFrame(was, f);
      }
    }

    /** pmm_free_frames. */
    method FreeFrames(ghost kernelFrames: nat) returns (n: nat)
      requires Valid(kernelFrames)
      ensures n + CountUsed(bitmap[..], total) == total
      ensures n == 0 <==> Alloc(State()).1 < 0
    {
      AllocKeeps(State(), kernelFrames);
      n := total - used;
    }
  }

  lemma SkipFullWord(words: seq<nat>, i: nat)
    requires i < |words| && words[i] == 0xFFFF_FFFF
    ensures FirstFree(words, 32 * i) == FirstFree(words, 32 * (i + 1))
  {
    PowersOfTwo();
    forall f: nat | 32 * i <= f < 32 * (i + 1) ensures InUse(words, f) {
      assert f / 32 == i;
      FullWord(32, f % 32);
    }
    SkipUsed(words, 32 * i, 32 * (i + 1));
  }

  lemma {:induction false} SkipUsed(words: seq<nat>, f: nat, g: nat)
    requires f <= g <= 32 * |words| && forall h | f <= h < g :: InUse(words, h)
    ensures FirstFree(words, f) == FirstFree(words, g)
    decreases g - f
  {
    if f < g { SkipUsed(words, f + 1, g); }
  }
}

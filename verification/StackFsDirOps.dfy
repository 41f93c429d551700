/** What create, mkdir and unlink do to the abstract directories. */
module StackFsDirOps {
  import opened Bytes
  import opened StackFsLayout
  import opened StackFs
  import opened StackFsInvariant
  import opened StackFsDirs

  /** The name as dir_add_entry stores it. */
  function Stored(name: seq<byte>): seq<byte> { name[..Min(|name|, NAME_MAX - 1)] }

  /** r is s with one more entry, in slot q of directory di: no other slot of any directory changed. */
  ghost predicate Entered(s: Fs, r: Fs, di: nat, q: nat, child: nat, name: seq<byte>)
    requires Shape(s) && Shape(r)
  {
    && Target(s, di, q) == 0
    && (forall i: nat, p: nat :: Target(r, i, p) == if i == di && p == q then child else Target(s, i, p))
    && (forall i: nat, p: nat | Target(s, i, p) != 0 :: NameOf(r, i, p) == NameOf(s, i, p))
    && NameOf(r, di, q) == Stored(name)
  }

  /** What an operation on directory di leaves alone. */
  ghost predicate OnlyDir(s: Fs, r: Fs, di: nat)
    requires Shape(s) && Shape(r) && di < MAX_INODES
  {
    && |r.data| == |s.data| && r.meta == s.meta
    && r.sb == s.sb.(freeBlocks := r.sb.freeBlocks)
    && r.inodes == s.inodes[di := s.inodes[di].(blocks := r.inodes[di].blocks)]
    && (forall j: nat, l: nat | j != di && Ptr(s.inodes, j, l) != 0 ::
          r.data[Ptr(s.inodes, j, l)] == s.data[Ptr(s.inodes, j, l)])
    && (s.bitmapDirty ==> r.bitmapDirty) && (s.sbDirty ==> r.sbDirty) && (s.inodesDirty ==> r.inodesDirty)
    && (r.bitmap != s.bitmap || r.sb != s.sb ==> r.bitmapDirty && r.sbDirty)
    && (r.inodes != s.inodes ==> r.inodesDirty)
  }

  /** A volume on which directory di can take entries. */
  ghost predicate OpenDir(s: Fs, di: nat) {
    && Shape(s) && Own(s) && Taken(s.bitmap, 0) && LiveDir(s, di) && Prefix(s.inodes, di) && NamesTerminated(s)
  }

  lemma PutBlockKeepsOwn(s: Fs, b: nat, image: Block)
    requires Shape(s) && Own(s) && b < |s.data|
    ensures Own(s.(data := s.data[b := image]))
  {
  }

  /** Writing an entry into an empty slot of a block of the directory. */
  lemma FillSlot(s: Fs, di: nat, k: nat, e: nat, child: nat, name: seq<byte>)
    requires OpenDir(s, di) && k < DIRECT && Ptr(s.inodes, di, k) != 0 && e < PER_BLOCK && 0 < child < U32 && 0 !in name
    requires EntryIno(s.data[Ptr(s.inodes, di, k)], e) == 0
    ensures var b := Ptr(s.inodes, di, k);
            var r := s.(data := s.data[b := PutEntry(s.data[b], e, child, CopyStr(EntryName(s.data[b], e), name))]);
            && OpenDir(r, di) && OnlyDir(s, r, di) && Entered(s, r, di, PER_BLOCK * k + e, child, name)
  {
    var b := Ptr(s.inodes, di, k);
    var image := PutEntry(s.data[b], e, child, CopyStr(EntryName(s.data[b], e), name));
    PutBlockKeepsOwn(s, b, image);
    assert forall j: nat, l: nat | Ptr(s.inodes, j, l) == b :: j == di && l == k;
    hide Own, PutEntry, EntryIno, EntryName, CopyStr, CStr, Target, NameOf, Entered;
    var r := s.(data := s.data[b := image]);
    FilledSlots(s, r, di, k, e, b, child, name);
    assert s.inodes[di := s.inodes[di].(blocks := r.inodes[di].blocks)] == s.inodes;
  }

  lemma FilledSlots(s: Fs, r: Fs, di: nat, k: nat, e: nat, b: nat, child: nat, name: seq<byte>)
    requires OpenDir(s, di) && k < DIRECT && Ptr(s.inodes, di, k) == b != 0 && e < PER_BLOCK
    requires 0 < child < U32 && 0 !in name && EntryIno(s.data[b], e) == 0
    requires Shape(r) && forall j: nat, l: nat | Ptr(s.inodes, j, l) == b :: j == di && l == k
    requires r == s.(data := s.data[b := PutEntry(s.data[b], e, child, CopyStr(EntryName(s.data[b], e), name))])
    ensures Entered(s, r, di, PER_BLOCK * k + e, child, name) && NamesTerminated(r)
  {
    hide Own, PutEntry, EntryIno, EntryName, CopyStr, CStr;
    var field, q := CopyStr(EntryName(s.data[b], e), name), PER_BLOCK * k + e;
    CopyStrReads(EntryName(s.data[b], e), name);
    assert q / PER_BLOCK == k && q % PER_BLOCK == e;
    forall i: nat, p: nat | i < MAX_INODES && s.inodes[i].kind == DIR && Used(s, i, p)
      ensures SlotIno(r, i, p) == if i == di && p == q then child else SlotIno(s, i, p)
      ensures SlotName(r, i, p) == if i == di && p == q then field else SlotName(s, i, p)
    {
      PutEntryReads(s.data[b], e, child, field, p % PER_BLOCK);
    }
    assert NameOf(r, di, q) == Stored(name);
  }

  /** Adding a block to the directory and writing the first entry into it. */
  lemma FillFresh(s: Fs, di: nat, k: nat, child: nat, name: seq<byte>)
    requires OpenDir(s, di) && k < DIRECT && Ptr(s.inodes, di, k) == 0 && 0 < child < U32 && 0 !in name
    requires forall l: nat | l < k :: Ptr(s.inodes, di, l) != 0
    requires s.sb.freeBlocks > 0
    ensures var (s1, b) := BitmapAlloc(s);
            && b > 0
            && var s2 := s1.(inodes := SetPtr(s1.inodes, di, k, b), inodesDirty := true);
               var r := s2.(data := s2.data[b := PutEntry(Zeros(BLOCK), 0, child, CopyStr(EntryName(Zeros(BLOCK), 0), name))]);
               && OpenDir(r, di) && OnlyDir(s, r, di) && Entered(s, r, di, PER_BLOCK * k, child, name)
               && r.sb.freeBlocks == s.sb.freeBlocks - 1
  {
    AllocFails(s);
    GrantBlock(s, di, k);
    var (s1, b) := BitmapAlloc(s);
    var s2 := s1.(inodes := SetPtr(s1.inodes, di, k, b), inodesDirty := true);
    var image := PutEntry(Zeros(BLOCK), 0, child, CopyStr(EntryName(Zeros(BLOCK), 0), name));
    var r := s2.(data := s2.data[b := image]);
    PutBlockKeepsOwn(s2, b, image);
    FreshSlots(s, r, di, k, b, child, name);
  }

  lemma FreshSlots(s: Fs, r: Fs, di: nat, k: nat, b: nat, child: nat, name: seq<byte>)
    requires OpenDir(s, di) && k < DIRECT && Ptr(s.inodes, di, k) == 0 && 0 < child < U32 && 0 !in name
    requires Shape(r) && b < |s.data| && forall j: nat, l: nat :: Ptr(s.inodes, j, l) != b
    requires r.inodes == SetPtr(s.inodes, di, k, b) && b > 0
    requires r.data == s.data[b := PutEntry(Zeros(BLOCK), 0, child, CopyStr(EntryName(Zeros(BLOCK), 0), name))]
    ensures Entered(s, r, di, PER_BLOCK * k, child, name) && NamesTerminated(r)
  {
    hide Own, PutEntry, EntryIno, EntryName, CopyStr, CStr;
    var zero := Zeros(BLOCK);
    var field := CopyStr(EntryName(zero, 0), name);
    CopyStrReads(EntryName(zero, 0), name);
    var q := PER_BLOCK * k;
    assert q / PER_BLOCK == k && q % PER_BLOCK == 0;
    forall i: nat, p: nat | i < MAX_INODES && r.inodes[i].kind == DIR && Used(r, i, p)
      ensures if i == di && p / PER_BLOCK == k
              then SlotIno(r, i, p) == (if p == q then child else 0) && 0 in SlotName(r, i, p)
                   && (p == q ==> SlotName(r, i, p) == field)
              else Used(s, i, p) && SlotIno(r, i, p) == SlotIno(s, i, p) && SlotName(r, i, p) == SlotName(s, i, p)
    {
      PutEntryReads(zero, 0, child, field, p % PER_BLOCK);
      EmptyBlock(p % PER_BLOCK);
    }
    assert NameOf(r, di, q) == Stored(name);
  }

  // ---------------------------------------------------------------- dir_add_entry

  /** A block of the directory has an empty slot. */
  ghost predicate HasSlot(s: Fs, di: nat)
    requires Shape(s) && di < MAX_INODES
  {
    exists q: nat :: Used(s, di, q) && SlotIno(s, di, q) == 0
  }

  /** There is an empty slot, or a missing block and a free block to put there. */
  ghost predicate HasRoom(s: Fs, di: nat)
    requires Shape(s) && di < MAX_INODES
  {
    || HasSlot(s, di)
    || (s.sb.freeBlocks > 0 && exists k: nat :: k < DIRECT && Ptr(s.inodes, di, k) == 0)
  }

  ghost predicate FullBelow(s: Fs, di: nat, k: nat)
    requires Shape(s) && di < MAX_INODES
  {
    && (forall l: nat | l < k :: Ptr(s.inodes, di, l) != 0)
    && (forall q: nat | q < PER_BLOCK * k && Used(s, di, q) :: SlotIno(s, di, q) != 0)
  }

  lemma RoomIsFreeBlock(s: Fs, di: nat, k: nat)
    requires OpenDir(s, di) && k < DIRECT && FullBelow(s, di, k) && Ptr(s.inodes, di, k) == 0
    ensures !HasSlot(s, di) && (HasRoom(s, di) <==> s.sb.freeBlocks > 0)
  {
    assert forall q: nat | Used(s, di, q) :: q / PER_BLOCK < k;
  }

  /** dir_add_entry enters the name in one empty slot exactly when there is room, and otherwise
      changes nothing. */
  lemma {:induction false} AddEntryEnters(s: Fs, di: nat, child: nat, name: seq<byte>, k: nat)
    requires OpenDir(s, di) && k <= DIRECT && 0 < child < U32 && 0 !in name && FullBelow(s, di, k)
    ensures var (r, rc) := AddEntry(s, di, child, name, k);
            if HasRoom(s, di)
            then && rc == 0 && OpenDir(r, di) && OnlyDir(s, r, di) && (exists q: nat :: Entered(s, r, di, q, child, name))
                 && r.sb.freeBlocks == s.sb.freeBlocks - if HasSlot(s, di) then 0 else 1
            else rc == -1 && r == s
    decreases DIRECT - k
  {
    hide Own, OnlyDir, Entered, NamesTerminated, PutEntry, EntryName, EntryIno, CopyStr;
    if k == DIRECT {
    } else if Ptr(s.inodes, di, k) == 0 {
      AllocFails(s);
      RoomIsFreeBlock(s, di, k);
      hide HasRoom, FullBelow;
      if s.sb.freeBlocks > 0 {
        FillFresh(s, di, k, child, name);
        EmptyBlock(0);
      }
    } else {
      var b := Ptr(s.inodes, di, k);
      var e := FirstEmptyEntry(s.data[b], 0);
      if e < PER_BLOCK {
        var q := PER_BLOCK * k + e;
        assert q / PER_BLOCK == k && q % PER_BLOCK == e && Used(s, di, q) && SlotIno(s, di, q) == 0;
        FillSlot(s, di, k, e, child, name);
      } else {
        assert FullBelow(s, di, k + 1);
        AddEntryEnters(s, di, child, name, k + 1);
      }
    }
  }
}

/** StackFS directories refine maps from names to inode numbers. */
module StackFsDirs {
  import opened Bytes
  import opened StackFsLayout
  import opened StackFs

  // ---------------------------------------------------------------- entries of one block

  lemma PutEntryAt(b: Block, e: nat, ino: nat, name: seq<byte>, p: nat)
    requires e < PER_BLOCK && |name| == NAME_MAX && p < BLOCK
    ensures PutEntry(b, e, ino, name)[p] ==
            if DIRENT * e <= p < DIRENT * e + 4 then PutU32(ino)[p - DIRENT * e]
            else if DIRENT * e + 4 <= p < DIRENT * e + DIRENT then name[p - DIRENT * e - 4]
            else b[p]
  {
  }

  lemma PutEntryReads(b: Block, e: nat, ino: nat, name: seq<byte>, f: nat)
    requires e < PER_BLOCK && |name| == NAME_MAX && f < PER_BLOCK && ino < U32
    ensures EntryIno(PutEntry(b, e, ino, name), f) == if f == e then ino else EntryIno(b, f)
    ensures EntryName(PutEntry(b, e, ino, name), f) == if f == e then name else EntryName(b, f)
  {
    var r := PutEntry(b, e, ino, name);
    hide PutEntry, PutU32;
    var i0, n0 := r[DIRENT * f..DIRENT * f + 4], EntryName(r, f);
    var i1 := if f == e then PutU32(ino) else b[DIRENT * f..DIRENT * f + 4];
    var n1 := if f == e then name else EntryName(b, f);
    forall p: nat | p < 4 ensures i0[p] == i1[p] {
      PutEntryAt(b, e, ino, name, DIRENT * f + p);
    }
    forall p: nat | p < NAME_MAX ensures n0[p] == n1[p] {
      PutEntryAt(b, e, ino, name, DIRENT * f + 4 + p);
    }
    assert i0 == i1 && n0 == n1;
    U32RoundTrip(ino);
  }

  lemma EmptyBlock(e: nat)
    requires e < PER_BLOCK
    ensures EntryIno(Zeros(BLOCK), e) == 0 && 0 in EntryName(Zeros(BLOCK), e)
  {
    assert EntryName(Zeros(BLOCK), e)[0] == 0;
  }

  // ---------------------------------------------------------------- the abstract directory

  /** The inode that slot q of directory i targets; 0 when the slot is empty or absent. */
  function Target(s: Fs, i: nat, q: nat): nat
    requires Shape(s)
  {
    if i < MAX_INODES && s.inodes[i].kind == DIR && Used(s, i, q) then SlotIno(s, i, q) else 0
  }

  /** The name stored in slot q of directory i. */
  function NameOf(s: Fs, i: nat, q: nat): seq<byte>
    requires Shape(s)
  {
    if i < MAX_INODES && s.inodes[i].kind == DIR && Used(s, i, q) then CStr(SlotName(s, i, q)) else []
  }

  ghost predicate TargetsLive(s: Fs)
    requires Shape(s)
  {
    forall i: nat, q: nat | Target(s, i, q) != 0 ::
      ROOT < Target(s, i, q) < MAX_INODES && Target(s, i, q) != i && s.inodes[Target(s, i, q)].kind != FREE
  }

  ghost predicate TargetsDistinct(s: Fs)
    requires Shape(s)
  {
    forall i: nat, q: nat, j: nat, r: nat | Target(s, i, q) == Target(s, j, r) != 0 :: i == j && q == r
  }

  ghost predicate NamesTerminated(s: Fs)
    requires Shape(s)
  {
    forall i: nat, q: nat | i < MAX_INODES && s.inodes[i].kind == DIR && Used(s, i, q) :: 0 in SlotName(s, i, q)
  }

  ghost predicate Prefix(t: seq<Inode>, i: nat) {
    forall k: nat, l: nat | k < l && Ptr(t, i, k) == 0 :: Ptr(t, i, l) == 0
  }

  /** Directories: every entry targets a live inode other than the root and the directory itself,
      no inode is targeted twice, names are terminated, and used blocks form a prefix. */
  ghost predicate Dirs(s: Fs)
    requires Shape(s)
  {
    && s.inodes[0].kind == FREE && s.inodes[ROOT].kind == DIR
    && TargetsLive(s) && TargetsDistinct(s) && NamesTerminated(s)
    && forall i: nat | i < MAX_INODES && s.inodes[i].kind == DIR :: Prefix(s.inodes, i)
  }

  ghost predicate LiveDir(s: Fs, i: nat) {
    i < |s.inodes| && s.inodes[i].kind == DIR
  }

  /** Slot q is the first slot of directory i with an entry of this name. */
  ghost predicate FirstMatch(s: Fs, i: nat, name: seq<byte>, q: nat)
    requires Shape(s)
  {
    && Target(s, i, q) != 0 && NameOf(s, i, q) == name
    && forall p: nat | p < q && Target(s, i, p) != 0 :: NameOf(s, i, p) != name
  }

  ghost predicate NoMatch(s: Fs, i: nat, name: seq<byte>)
    requires Shape(s)
  {
    forall p: nat | Target(s, i, p) != 0 :: NameOf(s, i, p) != name
  }

  /** Because used blocks form a prefix, the scan that stops at the first missing block misses
      nothing: it finds the first entry of that name in the whole directory. */
  lemma ScanIsComplete(s: Fs, i: nat, name: seq<byte>)
    requires Shape(s) && LiveDir(s, i) && Prefix(s.inodes, i)
    ensures var q := FindSlot(s, i, name, 0);
            if q == MAX_SLOTS then NoMatch(s, i, name) else FirstMatch(s, i, name, q)
  {
    hide SlotIno, SlotName;
    ScanFrom(s, i, name, 0);
  }

  lemma UnusedFrom(s: Fs, i: nat, q: nat)
    requires Shape(s) && LiveDir(s, i) && Prefix(s.inodes, i) && !Used(s, i, q)
    ensures forall p: nat | q <= p :: Target(s, i, p) == 0
  {
    hide SlotIno, SlotName;
    forall p: nat | q <= p ensures !Used(s, i, p) {
      assert q / PER_BLOCK <= p / PER_BLOCK;
    }
  }

  lemma {:induction false} ScanFrom(s: Fs, i: nat, name: seq<byte>, q: nat)
    requires Shape(s) && LiveDir(s, i) && Prefix(s.inodes, i) && q <= MAX_SLOTS
    ensures var r := FindSlot(s, i, name, q);
            && (r < MAX_SLOTS ==> r >= q && Target(s, i, r) != 0 && NameOf(s, i, r) == name)
            && (forall p: nat | q <= p < r && Target(s, i, p) != 0 :: NameOf(s, i, p) != name)
    decreases MAX_SLOTS - q
  {
    hide SlotIno, SlotName, EntryIno, EntryName, CStr;
    if q < MAX_SLOTS {
      if !Used(s, i, q) {
        UnusedFrom(s, i, q);
      } else {
        ScanFrom(s, i, name, q + 1);
      }
    }
  }

  lemma FirstMatchUnique(s: Fs, i: nat, name: seq<byte>, q: nat, r: nat)
    requires Shape(s) && FirstMatch(s, i, name, q) && FirstMatch(s, i, name, r)
    ensures q == r
  {
  }

  /** bfs_finddir is the lookup of the abstract map. */
  lemma FinddirFinds(s: Fs, i: nat, name: seq<byte>, q: nat)
    requires Shape(s) && Dirs(s) && LiveDir(s, i) && name != []
    requires FirstMatch(s, i, name, q)
    ensures Finddir(s, i, name) == Target(s, i, q)
  {
    hide SlotIno, SlotName, FindSlot, TargetsDistinct, NamesTerminated;
    ScanIsComplete(s, i, name);
    var r := FindSlot(s, i, name, 0);
    if r < MAX_SLOTS { FirstMatchUnique(s, i, name, q, r); }
  }

  lemma FinddirMisses(s: Fs, i: nat, name: seq<byte>)
    requires Shape(s) && Dirs(s) && LiveDir(s, i) && NoMatch(s, i, name)
    ensures Finddir(s, i, name) == 0
  {
    hide SlotIno, SlotName, FindSlot, TargetsDistinct, NamesTerminated;
    ScanIsComplete(s, i, name);
  }

  /** Two states whose directory i has the same entries answer every lookup in it alike. */
  lemma SameLookups(s: Fs, r: Fs, i: nat, name: seq<byte>)
    requires Shape(s) && Dirs(s) && Shape(r) && Dirs(r) && LiveDir(s, i) && LiveDir(r, i)
    requires forall q: nat :: Target(s, i, q) != 0 && NameOf(s, i, q) == name
                         <==> Target(r, i, q) != 0 && NameOf(r, i, q) == name
    requires forall q: nat | Target(s, i, q) != 0 && NameOf(s, i, q) == name :: Target(r, i, q) == Target(s, i, q)
    ensures Finddir(r, i, name) == Finddir(s, i, name)
  {
    hide Target, NameOf, TargetsLive, TargetsDistinct, NamesTerminated, Finddir;
    if name == [] {
      NoEmptyName(s, i);
      NoEmptyName(r, i);
    } else if q: nat :| FirstMatch(s, i, name, q) {
      FinddirFinds(s, i, name, q);
      assert FirstMatch(r, i, name, q);
      FinddirFinds(r, i, name, q);
    } else {
      ScanIsComplete(s, i, name);
      FinddirMisses(s, i, name);
      FinddirMisses(r, i, name);
    }
  }

  lemma NoEmptyName(s: Fs, i: nat)
    requires Shape(s)
    ensures Finddir(s, i, []) == 0
  {
  }
}

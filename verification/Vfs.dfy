/** Path resolution over mounted file systems (kernel/fs/vfs.c). Paths are texts without a NUL. */
module Vfs {
  import opened Bytes

  type Path = seq<byte>

  const SLASH: byte := '/' as int
  const PATH_MAX: nat := 512
  const NAME_MAX: nat := 128
  const MOUNTS: nat := 16

  /** What a node stands for: a file system object, and whether it is a directory. */
  datatype Info = Info(key: nat, isDir: bool)

  /** The file systems' finddir while a path is walked. */
  type Finder = (Info, Path) -> Option<Info>

  datatype Entry = Entry(path: Path, info: Info)

  /** A copy into a buffer of `max` bytes keeps what fits before the NUL. */
  function Truncate(s: Path, max: nat): (r: Path)
    requires max > 0
    ensures |r| == Min(|s|, max - 1) && r == s[..|r|]
  {
    if |s| < max then s else s[..max - 1]
  }

  /** mount_lookup: the first entry with that path. */
  function Lookup(table: seq<Entry>, path: Path): (r: Option<Info>)
    ensures r.None? <==> forall m | m in table :: m.path != path
    ensures r.Some? ==> Entry(path, r.value) in table
  {
    if table == [] then None
    else if table[0].path == path then Some(table[0].info)
    else Lookup(table[1..], path)
  }

  // ---------------------------------------------------------------- components

  function ComponentEnd(t: Path, p: nat): (q: nat)
    requires p <= |t|
    ensures p <= q <= |t| && (forall k | p <= k < q :: t[k] != SLASH) && (q == |t| || t[q] == SLASH)
    decreases |t| - p
  {
    if p == |t| || t[p] == SLASH then p else ComponentEnd(t, p + 1)
  }

  /** The non-empty components of a path from position p on. */
  function Components(t: Path, p: nat): (cs: seq<Path>)
    requires p <= |t|
    ensures forall c | c in cs :: c != [] && SLASH !in c
    decreases |t| - p
  {
    if p == |t| then []
    else if t[p] == SLASH then Components(t, p + 1)
    else var q := ComponentEnd(t, p); [t[p..q]] + Components(t, q)
  }

  /** The text of an absolute path. */
  function Absolute(cs: seq<Path>): (t: Path) {
    if cs == [] then [] else Absolute(cs[..|cs| - 1]) + [SLASH] + cs[|cs| - 1]
  }

  /** What the walk calls the path of the components so far. */
  function Walked(cs: seq<Path>): Path { if cs == [] then [SLASH] else Absolute(cs) }

  predicate Names(cs: seq<Path>) { forall c | c in cs :: c != [] && SLASH !in c }

  lemma ComponentEndIs(t: Path, p: nat, q: nat)
    requires p <= q <= |t| && (forall k | p <= k < q :: t[k] != SLASH) && (q == |t| || t[q] == SLASH)
    ensures ComponentEnd(t, p) == q
    decreases |t| - p
  {
    if p < q { ComponentEndIs(t, p + 1, q); }
  }

  /** Reading the components of a text that ends with one more component. */
  lemma {:induction false} ComponentsAppend(t: Path, p: nat, c: Path)
    requires p <= |t| && c != [] && SLASH !in c
    ensures Components(t + [SLASH] + c, p) == Components(t, p) + [c]
    decreases |t| - p
  {
    var all := t + [SLASH] + c;
    if p == |t| {
      ComponentEndIs(all, p + 1, |all|);
      assert all[p + 1..|all|] == c && all[p + 1] == c[0] && c[0] in c;
      assert Components(all, p + 1) == [c] + Components(all, |all|);
    } else {
      assert all[p] == t[p];
      if t[p] == SLASH {
        ComponentsAppend(t, p + 1, c);
      } else {
        var q := ComponentEnd(t, p);
        assert forall k | p <= k < q :: all[k] == t[k];
        assert q < |t| ==> all[q] == t[q];
        ComponentEndIs(all, p, q);
        assert all[p..q] == t[p..q];
        ComponentsAppend(t, q, c);
      }
    }
  }

  /** An absolute path has exactly the components it was made of. */
  lemma {:induction false} AbsoluteComponents(cs: seq<Path>)
    requires Names(cs)
    ensures Components(Absolute(cs), 0) == cs
  {
    if cs != [] {
      var n := |cs| - 1;
      assert cs[n] in cs && forall c | c in cs[..n] :: c in cs;
      AbsoluteComponents(cs[..n]);
      ComponentsAppend(Absolute(cs[..n]), 0, cs[n]);
      assert cs == cs[..n] + [cs[n]];
    }
  }

  // ---------------------------------------------------------------- resolution

  /** One step of the walk from an object to the component c below it; `at` is the path walked, with c.
      A component too long for the name buffer ends the walk. */
  function Descend(table: seq<Entry>, find: Finder, from: Info, c: Path, at: Path): Option<Info> {
    if |c| >= NAME_MAX then None
    else if Lookup(table, at).Some? then Lookup(table, at)
    else if !from.isDir then None
    else find(from, c)
  }

  /** What a list of components means: its parent is resolved first; then, when the last name fits its
      buffer, the first mount at this very path is preferred to the parent's entry, for which the parent
      must be a directory. */
  function Resolve(table: seq<Entry>, find: Finder, root: Info, cs: seq<Path>): Option<Info> {
    if cs == [] then Some(root)
    else
      var n := |cs| - 1;
      var parent := Resolve(table, find, root, cs[..n]);
      if parent == None || NAME_MAX <= |cs[n]| then None
      else if exists m :: m in table && m.path == Absolute(cs) then FirstAt(table, Absolute(cs))
      else if parent.value.isDir then find(parent.value, cs[n])
      else None
  }

  /** The first entry of the table with this path. */
  function FirstAt(table: seq<Entry>, path: Path): Option<Info> {
    if table == [] then None
    else if table[|table| - 1].path != path || FirstAt(table[..|table| - 1], path).Some? then FirstAt(table[..|table| - 1], path)
    else Some(table[|table| - 1].info)
  }

  /** The walking loop: `done` components walked to `cur`, `rest` to go. */
  function Walk(table: seq<Entry>, find: Finder, cur: Info, done: seq<Path>, rest: seq<Path>): Option<Info>
    decreases |rest|
  {
    if rest == [] then Some(cur)
    else
      var next := done + [rest[0]];
      match Descend(table, find, cur, rest[0], Absolute(next))
      case None => None
      case Some(child) => Walk(table, find, child, next, rest[1..])
  }

  /** The path without one trailing slash, cut to the buffer. */
  function Normal(path: Path): (r: Path)
    ensures |r| < PATH_MAX
  {
    var n := Truncate(path, PATH_MAX);
    if |n| > 1 && n[|n| - 1] == SLASH then n[..|n| - 1] else n
  }

  /** vfs_open once there is a root. */
  function OpenPath(table: seq<Entry>, find: Finder, root: Info, path: Path): Option<Info> {
    var n := Normal(path);
    if n == [SLASH] then Some(root)
    else if Lookup(table, n).Some? then Lookup(table, n)
    else Walk(table, find, root, [], Components(n, 0))
  }

  /** mount_lookup finds the first entry with the path. */
  lemma {:induction false} LookupIsFirst(table: seq<Entry>, path: Path)
    ensures Lookup(table, path) == FirstAt(table, path)
  {
    if table != [] {
      var n := |table| - 1;
      LookupIsFirst(table[..n], path);
      LookupAppend(table[..n], [table[n]], path);
      assert table == table[..n] + [table[n]];
      assert Lookup([table[n]], path) == if table[n].path == path then Some(table[n].info) else None;
      hide Lookup;
    }
  }

  /** One turn of the walk is one step of the meaning. */
  lemma DescendIs(table: seq<Entry>, find: Finder, root: Info, cs: seq<Path>)
    requires cs != []
    ensures var n := |cs| - 1;
            Resolve(table, find, root, cs) ==
            match Resolve(table, find, root, cs[..n]) {
              case None => None
              case Some(parent) => Descend(table, find, parent, cs[n], Absolute(cs))
            }
  {
    LookupIsFirst(table, Absolute(cs));
    hide FirstAt, Absolute;
  }

  lemma {:induction false} NothingBelowNone(table: seq<Entry>, find: Finder, root: Info, cs: seq<Path>, more: seq<Path>)
    requires Resolve(table, find, root, cs).None?
    ensures Resolve(table, find, root, cs + more).None?
    decreases |more|
  {
    if more == [] {
      assert cs + more == cs;
    } else {
      var n := |more| - 1;
      NothingBelowNone(table, find, root, cs, more[..n]);
      assert (cs + more)[..|cs + more| - 1] == cs + more[..n];
    }
  }

  lemma {:induction false} WalkResolves(table: seq<Entry>, find: Finder, root: Info, cur: Info, done: seq<Path>, rest: seq<Path>)
    requires Resolve(table, find, root, done) == Some(cur)
    ensures Walk(table, find, cur, done, rest) == Resolve(table, find, root, done + rest)
    decreases |rest|
  {
    if rest == [] {
      assert done + rest == done;
    } else {
      var next := done + [rest[0]];
      assert next[..|next| - 1] == done && next + rest[1..] == done + rest;
      DescendIs(table, find, root, next);
      hide Resolve, Descend, Absolute;
      match Descend(table, find, cur, rest[0], Absolute(next))
      case None => NothingBelowNone(table, find, root, next, rest[1..]);
      case Some(child) => WalkResolves(table, find, root, child, next, rest[1..]);
    }
  }

  /** One turn of the walking loop at p: a slash is skipped, a component is read. */
  lemma ComponentsTurn(t: Path, p: nat)
    requires p < |t|
    ensures t[p] == SLASH ==> Components(t, p) == Components(t, p + 1)
    ensures t[p] != SLASH ==>
              var q := ComponentEnd(t, p);
              && p < q && t[p..q] != [] && SLASH !in t[p..q]
              && Components(t, p) == [t[p..q]] + Components(t, if q < |t| then q + 1 else q)
  {}

  /** Normal paths for which the path walked so far always fits its buffer. */
  predicate Fits(t: Path) { |t| < PATH_MAX - 1 || (|t| < PATH_MAX && t[0] == SLASH) }

  /** The path walked so far is not longer than what was read of the path. */
  predicate Room(t: Path, p: nat, done: seq<Path>) {
    && (done != [] ==> |Absolute(done)| > 1)
    && (p < |t| ==> |Absolute(done)| + (if t[0] == SLASH then 1 else 0) <= p || (p == 0 && done == []))
  }

  lemma RoomAtStart(t: Path)
    ensures Room(t, 0, [])
  {}

  lemma RoomSkip(t: Path, p: nat, done: seq<Path>)
    requires Room(t, p, done) && p < |t| && t[p] == SLASH
    ensures Room(t, p + 1, done)
  {}

  lemma RoomAhead(t: Path, p: nat, done: seq<Path>, q: nat)
    requires Fits(t) && Room(t, p, done) && p < q <= |t| && t[p] != SLASH
    ensures var next := done + [t[p..q]];
            && Room(t, q + 1, next) && Room(t, |t|, next)
            && Absolute(next) == (if |Walked(done)| > 1 then Walked(done) + [SLASH] else Walked(done)) + t[p..q]
            && |Absolute(next)| < PATH_MAX
  {
    var next := done + [t[p..q]];
    assert next[..|next| - 1] == done;
  }

  lemma WalkTurn(table: seq<Entry>, find: Finder, cur: Info, done: seq<Path>, c: Path, rest: seq<Path>)
    ensures Walk(table, find, cur, done, [c] + rest) ==
            match Descend(table, find, cur, c, Absolute(done + [c])) {
              case None => None
              case Some(child) => Walk(table, find, child, done + [c], rest)
            }
  {
    assert ([c] + rest)[1..] == rest;
    hide Descend, Absolute;
  }

  lemma OneSlash(n: Path)
    requires n == [SLASH]
    ensures Components(n, 0) == []
  {}

  /** vfs_open resolves the path's components, except where the whole text names a mount. */
  lemma OpenResolves(table: seq<Entry>, find: Finder, root: Info, path: Path)
    requires Lookup(table, Normal(path)).None? || Normal(path) == [SLASH]
    ensures OpenPath(table, find, root, path) == Resolve(table, find, root, Components(Normal(path), 0))
  {
    var cs := Components(Normal(path), 0);
    if Normal(path) == [SLASH] { OneSlash(Normal(path)); }
    WalkResolves(table, find, root, root, [], cs);
    assert [] + cs == cs;
  }

  /** The shortcut for a path that is itself a mount point gives what resolving its components gives
      exactly when its parent resolves and its last name fits the name buffer. */
  lemma ShortcutAgreesIff(table: seq<Entry>, find: Finder, root: Info, cs: seq<Path>)
    requires Names(cs) && cs != [] && |Absolute(cs)| < PATH_MAX && Lookup(table, Absolute(cs)).Some?
    ensures var n := |cs| - 1;
            OpenPath(table, find, root, Absolute(cs)) == Resolve(table, find, root, cs) <==>
            Resolve(table, find, root, cs[..n]).Some? && |cs[n]| < NAME_MAX
  {
    AbsoluteIsNormal(cs);
    DescendIs(table, find, root, cs);
    hide Walk, Components, Resolve;
  }

  lemma AbsoluteOfTwo(a: Path, b: Path)
    ensures Absolute([a]) == [SLASH] + a && Absolute([a, b]) == [SLASH] + a + [SLASH] + b
  {
    AbsoluteSnoc([], a);
    AbsoluteSnoc([a], b);
    assert [] + [a] == [a] && [a] + [b] == [a, b];
    assert Absolute([]) + [SLASH] + a == [SLASH] + a;
  }

  lemma AbsoluteSnoc(cs: seq<Path>, c: Path)
    ensures Absolute(cs + [c]) == Absolute(cs) + [SLASH] + c
  {
    assert (cs + [c])[..|cs|] == cs;
  }

  /** It need not: a mount at a/b answers although nothing is called a. */
  lemma ShortcutAlone(root: Info, mounted: Info, a: Path, b: Path)
    requires Names([a, b]) && |a| + |b| + 2 < PATH_MAX
    ensures var at := Absolute([a, b]);
            var table, find := [Entry(at, mounted)], (from: Info, c: Path) => None;
            OpenPath(table, find, root, at) == Some(mounted) && Resolve(table, find, root, [a, b]) == None
  {
    hide Walk, Components;
    var at := Absolute([a, b]);
    var table, find := [Entry(at, mounted)], (from: Info, c: Path) => None;
    assert [a, b][..1] == [a] && [a][..0] == [];
    AbsoluteOfTwo(a, b);
    AbsoluteIsNormal([a, b]);
    assert Resolve(table, find, root, [a]) == Descend(table, find, root, a, Absolute([a]));
  }

  /** An absolute path at which nothing is mounted opens what its parent directory holds under its last name;
      nothing when the parent is not a directory. */
  lemma OpenInParent(table: seq<Entry>, find: Finder, root: Info, cs: seq<Path>, parent: Info)
    requires Names(cs) && cs != [] && |Absolute(cs)| < PATH_MAX && forall m | m in table :: m.path != Absolute(cs)
    requires Resolve(table, find, root, cs[..|cs| - 1]) == Some(parent) && |cs[|cs| - 1]| < NAME_MAX
    ensures OpenPath(table, find, root, Absolute(cs)) == if parent.isDir then find(parent, cs[|cs| - 1]) else None
  {
    AbsoluteIsNormal(cs);
    AbsoluteComponents(cs);
    OpenResolves(table, find, root, Absolute(cs));
    hide OpenPath, Components, FirstAt, Absolute;
  }

  /** Below the mount points / and /d: the entry e of /d is looked up in what is mounted there. */
  lemma OpenBelowMount(find: Finder, root: Info, disk: Info, d: Path, e: Path)
    requires Names([d, e]) && |d| < NAME_MAX && |e| < NAME_MAX
    ensures var table := [Entry([SLASH], root), Entry([SLASH] + d, disk)];
            OpenPath(table, find, root, [SLASH] + d + [SLASH] + e) == if disk.isDir then find(disk, e) else None
  {
    var table := [Entry([SLASH], root), Entry([SLASH] + d, disk)];
    var cs := [d, e];
    assert cs[..1] == [d] && [d][..0] == [];
    AbsoluteOfTwo(d, e);
    assert d in [d, e] && e in [d, e];
    assert Resolve(table, find, root, []) == Some(root);
    LookupIsFirst(table, [SLASH] + d);
    assert table[1] in table && Lookup(table, [SLASH] + d) == Some(disk);
    assert Resolve(table, find, root, [d]) == Some(disk);
    OpenInParent(table, find, root, cs, disk);
  }

  /** One slash at the end of a path makes no difference. */
  lemma TrailingSlash(table: seq<Entry>, find: Finder, root: Info, path: Path)
    requires path != [] && path[|path| - 1] != SLASH && |path| + 1 < PATH_MAX
    ensures OpenPath(table, find, root, path + [SLASH]) == OpenPath(table, find, root, path)
  {
    assert (path + [SLASH])[..|path|] == path;
    hide Walk, Components, Lookup;
  }

  lemma AbsoluteIsNormal(cs: seq<Path>)
    requires Names(cs) && cs != [] && |Absolute(cs)| < PATH_MAX
    ensures Normal(Absolute(cs)) == Absolute(cs) != [SLASH]
  {
    var n := |cs| - 1;
    var c := cs[n];
    assert c in cs && c[|c| - 1] in c;
    var t := Absolute(cs);
    assert t[|t| - 1] == c[|c| - 1];
  }

  // ---------------------------------------------------------------- the walk in place

  class Node {
    const info: Info

    constructor (info: Info)
      ensures this.info == info
    {
      this.info := info;
    }
  }

  datatype Slot = Free | Used(path: Path, node: Node)

  function EntryOf(s: Slot): seq<Entry> { if s.Used? then [Entry(s.path, s.node.info)] else [] }

  class FileSystems {
    const mounts: array<Slot>
    var root: Node?

    /** vfs_init */
    constructor ()
      ensures Valid() && Table() == [] && root == null
    {
      mounts := new Slot[MOUNTS](_ => Free);
      root := null;
      new;
      assert Entries(MOUNTS) == [] by { NoneUsed(MOUNTS); }
    }

    ghost predicate Valid()
      reads this, mounts
    {
      mounts.Length == MOUNTS && (root != null ==> IsMounted(root))
    }

    ghost predicate IsMounted(node: Node)
      reads mounts
    {
      exists i | 0 <= i < mounts.Length :: mounts[i].Used? && mounts[i].node == node
    }

    /** The used entries among the first n, in order. */
    ghost function Entries(n: nat): seq<Entry>
      requires n <= mounts.Length
      reads mounts
    {
      if n == 0 then []
      else Entries(n - 1) + EntryOf(mounts[n - 1])
    }

    ghost function Table(): seq<Entry>
      reads mounts
    {
      Entries(mounts.Length)
    }

    lemma NoneUsed(n: nat)
      requires n <= mounts.Length && forall i | 0 <= i < n :: mounts[i].Free?
      ensures Entries(n) == []
    {}

    lemma {:induction false} FirstMatchStays(i: nat, n: nat, path: Path)
      requires i <= n <= mounts.Length && Lookup(Entries(i), path).Some?
      ensures Lookup(Entries(n), path) == Lookup(Entries(i), path)
    {
      hide Lookup, EntryOf;
      if i < n {
        FirstMatchStays(i, n - 1, path);
        LookupAppend(Entries(n - 1), EntryOf(mounts[n - 1]), path);
      }
    }

    /** vfs_mount: the first free slot, in the order of which later lookups search; the root path also
        sets the root. */
    method Mount(path: Path, node: Node) returns (ok: bool)
      requires Valid()
      modifies this`root, mounts
      ensures Valid()
      ensures ok <==> exists i | 0 <= i < MOUNTS :: old(mounts[i]).Free?
      ensures !ok ==> root == old(root) && mounts[..] == old(mounts[..])
      ensures ok ==> root == if path == [SLASH] then node else old(root)
      ensures ok ==> exists i | 0 <= i < MOUNTS ::
                       && old(mounts[i]).Free? && (forall k | 0 <= k < i :: old(mounts[k]).Used?)
                       && mounts[..] == old(mounts[..])[i := Slot.Used(Truncate(path, PATH_MAX), node)]
    {
      for i := 0 to MOUNTS
        invariant forall k | 0 <= k < i :: mounts[k].Used?
        invariant mounts[..] == old(mounts[..]) && root == old(root)
      {
        if mounts[i].Free? {
          ghost var at := if root == null then i else var j :| 0 <= j < MOUNTS && mounts[j].Used? && mounts[j].node == root; j;
          mounts[i] := Slot.Used(Truncate(path, PATH_MAX), node);
          assert root != null ==> mounts[at].Used? && mounts[at].node == root;
          if path == [SLASH] { root := node; }
          return true;
        }
      }
      return false;
    }

    /** vfs_node_is_mount_root */
    method IsMountRoot(node: Node?) returns (r: bool)
      requires mounts.Length == MOUNTS
      ensures r <==> node != null && IsMounted(node)
    {
      if node == null { return false; }
      for i := 0 to MOUNTS
        invariant forall k | 0 <= k < i :: mounts[k].Used? ==> mounts[k].node != node
      {
        if mounts[i].Used? && mounts[i].node == node { return true; }
      }
      return false;
    }

    lemma LookupNext(i: nat, path: Path)
      requires i < mounts.Length && Lookup(Entries(i), path).None?
      ensures Lookup(Entries(i + 1), path) ==
              if mounts[i].Used? && mounts[i].path == path then Some(mounts[i].node.info) else None
    {
      hide Lookup, EntryOf;
      LookupOne(mounts[i], path);
      LookupAppend(Entries(i), EntryOf(mounts[i]), path);
    }

    lemma IsMountedAt(i: nat)
      requires i < mounts.Length && mounts[i].Used?
      ensures IsMounted(mounts[i].node)
    {}

    /** mount_lookup */
    method FindMount(path: Path) returns (r: Node?)
      requires mounts.Length == MOUNTS
      ensures r == null ==> Lookup(Table(), path).None?
      ensures r != null ==> Lookup(Table(), path) == Some(r.info) && IsMounted(r)
    {
      assert Lookup([], path).None? && Entries(0) == [];
      hide Lookup, EntryOf, Entries, IsMounted;
      for i := 0 to MOUNTS
        invariant Lookup(Entries(i), path).None?
      {
        LookupNext(i, path);
        if mounts[i].Used? && mounts[i].path == path {
          IsMountedAt(i);
          FirstMatchStays(i + 1, MOUNTS, path);
          return mounts[i].node;
        }
      }
      return null;
    }

    /** What vfs_open owes its caller: every node it had made is freed exactly once, except a result
        that is one of them; mount roots are never among them. */
    ghost predicate Settled(r: Node?, made: set<Node>, freed: multiset<Node>)
      reads mounts
    {
      && freed == multiset(if r == null then made else made - {r})
      && (forall n | n in made :: !IsMounted(n))
      && (r != null ==> r in made || IsMounted(r))
    }

    /** vfs_open, with the nodes it has made and frees on the way. */
    method Open(path: Path, find: Finder) returns (r: Node?, ghost made: set<Node>, ghost freed: multiset<Node>)
      requires Valid() && (|path| < PATH_MAX - 1 || path[0] == SLASH)
      ensures root == null ==> r == null
      ensures root != null ==> OpenPath(Table(), find, root.info, path) == if r == null then None else Some(r.info)
      ensures (forall n | n in made :: fresh(n)) && Settled(r, made, freed)
    {
      hide Walk, Components, Lookup;
      r, made, freed := null, {}, multiset{};
      if root == null { return; }
      var norm := Truncate(path, PATH_MAX);
      if |norm| > 1 && norm[|norm| - 1] == SLASH { norm := norm[..|norm| - 1]; }
      if norm == [SLASH] { r := root; return; }
      r := FindMount(norm);
      if r != null { return; }
      r, made, freed := WalkPath(norm, find);
    }

    /** One component: the mount at the path walked so far, or what the directory holds. The node left
        behind is freed unless it is a mount root, each time after its last use. */
    method Enter(cur: Node, mounted: bool, component: Path, walked: Path, find: Finder, ghost made: set<Node>, ghost freed: multiset<Node>)
      returns (next: Node?, isMount: bool, ghost made': set<Node>, ghost freed': multiset<Node>)
      requires mounts.Length == MOUNTS && Settled(cur, made, freed) && mounted == IsMounted(cur)
      ensures Descend(Table(), find, cur.info, component, walked) == if next == null then None else Some(next.info)
      ensures next != null ==> isMount == IsMounted(next)
      ensures Settled(next, made', freed') && made <= made' && forall n | n in made' :: n in made || fresh(n)
    {
      hide Lookup, Table;
      made', freed' := made, freed;
      next, isMount := null, false;
      if |component| >= NAME_MAX {
        freed' := Leave(cur, mounted, made, freed);
        return;
      }
      var mp := FindMount(walked);
      if mp != null {
        freed' := Leave(cur, mounted, made, freed);
        next, isMount := mp, true;
        return;
      }
      var dir := IsDir(cur, freed);
      if !dir {
        freed' := Leave(cur, mounted, made, freed);
        return;
      }
      next := Finddir(find, cur, component, freed);
      freed' := Leave(cur, mounted, made, freed);
      if next != null { made' := made + {next}; }
    }

    /** The path walked so far, with one more component. */
    static method Extend(walked: Path, component: Path) returns (r: Path)
      requires |walked| + 1 < PATH_MAX
      ensures var base := if |walked| > 1 then walked + [SLASH] else walked;
              r == base + Truncate(component, PATH_MAX - |base|)
    {
      r := walked;
      if |r| > 1 { r := r + [SLASH]; }
      r := r + Truncate(component, PATH_MAX - |r|);
    }

    /** The walking loop of vfs_open. */
    method WalkPath(norm: Path, find: Finder) returns (cur: Node?, ghost made: set<Node>, ghost freed: multiset<Node>)
      requires Valid() && root != null && Fits(norm)
      ensures Walk(Table(), find, root.info, [], Components(norm, 0)) == if cur == null then None else Some(cur.info)
      ensures (forall n | n in made :: fresh(n)) && Settled(cur, made, freed)
    {
      hide Walk, Components, Descend, Settled, IsMounted, Room, Absolute, Table;
      made, freed, cur := {}, multiset{}, root;
      SettledAtRoot();
      var mounted := true;
      var walked: Path := [SLASH];
      var p := 0;
      ghost var done: seq<Path> := [];
      ghost var total := Walk(Table(), find, root.info, [], Components(norm, 0));
      RoomAtStart(norm);
      while p < |norm| && cur != null
        invariant p <= |norm|
        invariant (forall n | n in made :: fresh(n)) && Settled(cur, made, freed)
        invariant cur != null ==> mounted == IsMounted(cur) && walked == Walked(done) && Room(norm, p, done)
        invariant total == if cur == null then None else Walk(Table(), find, cur.info, done, Components(norm, p))
        decreases |norm| - p
      {
        ComponentsTurn(norm, p);
        if norm[p] == SLASH {
          RoomSkip(norm, p, done);
          p := p + 1;
          continue;
        }
        var q := ReadComponent(norm, p);
        var component := norm[p..q];
        RoomAhead(norm, p, done, q);
        p := if q < |norm| then q + 1 else q;
        WalkTurn(Table(), find, cur.info, done, component, Components(norm, p));
        walked := Extend(walked, component);
        cur, mounted, made, freed := Enter(cur, mounted, component, walked, find, made, freed);
        done := done + [component];
      }
      if cur != null { WalkEnd(find, cur.info, done, norm); }
    }

    lemma SettledAtRoot()
      requires Valid() && root != null
      ensures IsMounted(root) && Settled(root, {}, multiset{})
    {}

    lemma WalkEnd(find: Finder, cur: Info, done: seq<Path>, norm: Path)
      ensures Walk(Table(), find, cur, done, Components(norm, |norm|)) == Some(cur)
    {}

    /** `while (p[len] && p[len] != '/') len++;` */
    static method ReadComponent(t: Path, p: nat) returns (q: nat)
      requires p <= |t|
      ensures q == ComponentEnd(t, p)
    {
      q := p;
      while q < |t| && t[q] != SLASH
        invariant p <= q <= |t| && ComponentEnd(t, p) == ComponentEnd(t, q)
      {
        q := q + 1;
      }
    }

    /** `if (!cur_is_mount) kfree(cur)`: the node was not freed before, and now every node made is. */
    method Leave(cur: Node, mounted: bool, ghost made: set<Node>, ghost freed: multiset<Node>) returns (ghost freed': multiset<Node>)
      requires Settled(cur, made, freed) && mounted == IsMounted(cur)
      ensures cur !in freed && freed' == (if mounted then freed else freed + multiset{cur}) == multiset(made)
    {
      freed' := if mounted then freed else freed + multiset{cur};
    }

    /** `cur->flags & VFS_DIR` of a node that is still there. */
    static method IsDir(node: Node, ghost freed: multiset<Node>) returns (r: bool)
      requires node !in freed
      ensures r == node.info.isDir
    {
      r := node.info.isDir;
    }

    /** finddir as a file system implements it, in a directory that is still there: a node of its own for
        every entry found. */
    static method Finddir(find: Finder, dir: Node, name: Path, ghost freed: multiset<Node>) returns (child: Node?)
      requires dir !in freed
      ensures child == null <==> find(dir.info, name).None?
      ensures child != null ==> fresh(child) && find(dir.info, name) == Some(child.info)
    {
      match find(dir.info, name)
      case None => child := null;
      case Some(info) => child := new Node(info);
    }
  }

  lemma LookupOne(s: Slot, path: Path)
    ensures Lookup(EntryOf(s), path) == if s.Used? && s.path == path then Some(s.node.info) else None
  {}

  lemma {:induction false} LookupAppend(a: seq<Entry>, b: seq<Entry>, path: Path)
    ensures Lookup(a + b, path) == if Lookup(a, path).Some? then Lookup(a, path) else Lookup(b, path)
  {
    if a == [] {
      assert a + b == b;
    } else {
      assert (a + b)[1..] == a[1..] + b;
      LookupAppend(a[1..], b, path);
    }
  }
}

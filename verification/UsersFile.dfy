/** /disk/etc/passwd over time (kernel/user.c on kernel/fs/stackfs.c): users_save writes its text from the
    start of the file and cuts nothing off behind it. */
module UsersFile {
  import opened Bytes
  import opened Users
  import L = StackFsLayout
  import S = StackFs
  import F = StackFsFiles
  import V = StackFsVolume

  /** What the file holds after users_save, which writes nothing when no user is active. */
  function Saved(was: seq<byte>, us: seq<User>): seq<byte> {
    if Print(us) == [] then was else F.Overwrite(was, 0, Print(us))
  }

  /** What an older, longer text leaves behind the new one. */
  function Tail(was: seq<byte>, us: seq<User>): seq<byte> { was[Min(|was|, |Print(us)|)..] }

  lemma SavedIs(was: seq<byte>, us: seq<User>)
    ensures Saved(was, us) == Print(us) + Tail(was, us)
  {
    hide Print;
    if Print(us) == [] { assert Tail(was, us) == was; }
  }

  lemma {:induction false} PrintedBefore(us: seq<User>, rest: seq<byte>)
    requires forall u | u in us && u.active :: WellFormed(u)
    ensures Entries(Lines(Print(us) + rest)) == Active(us) + Entries(Lines(rest))
  {
    hide Lines, Entries, PrintUser, WellFormed;
    if us == [] {
      assert Print(us) + rest == rest;
    } else {
      PrintedBefore(us[1..], rest);
      if us[0].active {
        PrintedUser(us[0], Print(us[1..]) + rest);
        assert Print(us) + rest == PrintUser(us[0]) + (Print(us[1..]) + rest);
      } else {
        assert Print(us) == Print(us[1..]) && Active(us) == Active(us[1..]);
      }
    }
  }

  /** Loading after saving gives the active users, and behind them whatever the lines of the old text that
      stick out behind the new one mean, up to 16 in all. */
  lemma LoadAfterSave(was: seq<byte>, us: seq<User>)
    requires |us| <= USER_MAX && forall u | u in us && u.active :: WellFormed(u)
    ensures Parse(Saved(was, us), 0, 0) == UpTo(Active(us) + Entries(Lines(Tail(was, us))), USER_MAX)
  {
    hide Lines, Entries, Print, Tail, Saved, WellFormed, Parse;
    SavedIs(was, us);
    PrintedBefore(us, Tail(was, us));
    ParseIsByLines(Saved(was, us), 0, 0);
    assert Saved(was, us)[0..] == Saved(was, us);
  }

  /** So the users saved are the users loaded exactly when no line behind the new text means a user, or there
      is no room for one. */
  lemma LoadAfterSaveIff(was: seq<byte>, us: seq<User>)
    requires |us| <= USER_MAX && forall u | u in us && u.active :: WellFormed(u)
    ensures Parse(Saved(was, us), 0, 0) == Active(us) <==>
            Entries(Lines(Tail(was, us))) == [] || |Active(us)| == USER_MAX
  {
    hide Lines, Entries, Print, Tail, Saved, WellFormed, Parse;
    LoadAfterSave(was, us);
  }

  /** The failing family: when the last user of a saved table is deleted, the text left in the file is the old
      one, and after the next boot the user is back. */
  lemma DeletedUserReturns(us: seq<User>, u: User)
    requires |us| < USER_MAX && u.active && WellFormed(u) && forall v | v in us && v.active :: WellFormed(v)
    ensures var file := Saved(Print(us + [u]), us + [u.(active := false)]);
            file == Print(us + [u]) && Parse(file, 0, 0) == Active(us + [u]) == Active(us) + [u]
  {
    hide PrintUser, WellFormed, Parse;
    var gone := us + [u.(active := false)];
    PrintSnoc(us, u);
    PrintSnoc(us, u.(active := false));
    SavedIs(Print(us + [u]), gone);
    assert Print(us + [u]) == Print(gone) + Tail(Print(us + [u]), gone);
    LoadOfSave(us + [u]);
    ActiveSnoc(us, u);
  }

  lemma {:induction false} ActiveSnoc(us: seq<User>, u: User)
    requires u.active
    ensures Active(us + [u]) == Active(us) + [u]
  {
    if us == [] {
      assert us + [u] == [u];
    } else {
      assert (us + [u])[1..] == us[1..] + [u];
      ActiveSnoc(us[1..], u);
    }
  }

  /** On the volume: writing the text to a file without holes that has a block, or can get one, and reading it
      whole gives just that. */
  lemma SavedOnVolume(s: S.Fs, ino: nat, us: seq<User>)
    requires V.Inv(s) && V.LiveFile(s, ino) && F.HoleFree(s, ino) && (s.inodes[ino].size > 0 || s.sb.freeBlocks > 0)
    requires |us| <= USER_MAX && (forall u | u in us :: Stored(u)) && Print(us) != []
    ensures var (r, done) := S.Write(s, ino, 0, Print(us));
            && done == |Print(us)| && V.Inv(r) && F.HoleFree(r, ino)
            && S.Read(r, ino, 0, r.inodes[ino].size).1 == Saved(F.File(s, ino), us)
  {
    hide S.Write, S.Read, F.Overwrite, F.Cell, F.Reach, Print, V.Inv;
    PrintFits(us);
    FileIsReady(s, ino);
    F.WriteKeepsWhole(s, ino, 0, Print(us));
    V.WriteRefines(s, ino, 0, Print(us));
    var (r, done) := S.Write(s, ino, 0, Print(us));
    assert Print(us)[..done] == Print(us);
    FileIsReady(r, ino);
    F.ReadIsSlice(r, ino, 0, r.inodes[ino].size);
    assert F.File(r, ino)[0..r.inodes[ino].size] == F.File(r, ino);
  }

  lemma FileIsReady(s: S.Fs, ino: nat)
    requires V.Inv(s) && V.LiveFile(s, ino)
    ensures F.Ready(s, ino) && F.CleanTail(s, ino)
  {}
}

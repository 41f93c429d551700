/** The passwd text of kernel/user.c: the formatting loop of users_save and the parsing loop of
    users_load. A text is what stands before the terminating NUL. */
module Users {
  import opened Bytes

  const USER_MAX: nat := 16
  const NAME_MAX: nat := 16
  const PASS_MAX: nat := 32
  const COLON: byte := ':' as int
  const NEWLINE: byte := '\n' as int

  /** Name and password are C strings; priv is a uint8_t. */
  datatype User = User(name: seq<byte>, pass: seq<byte>, priv: nat, active: bool)

  predicate Stored(u: User) { |u.name| < NAME_MAX && |u.pass| < PASS_MAX && u.priv < 256 }

  /** Users that the file format can carry. */
  predicate WellFormed(u: User) {
    && Stored(u) && u.name != [] && u.priv <= 9
    && COLON !in u.name && NEWLINE !in u.name && COLON !in u.pass && NEWLINE !in u.pass
  }

  // ---------------------------------------------------------------- printing

  function PrivChar(priv: nat): byte { (48 + priv) % 256 }

  function PrintUser(u: User): (r: seq<byte>)
    ensures |r| == |u.name| + |u.pass| + 4
  {
    u.name + [COLON] + u.pass + [COLON] + [PrivChar(u.priv)] + [NEWLINE]
  }

  function Print(us: seq<User>): (r: seq<byte>) {
    if us == [] then [] else (if us[0].active then PrintUser(us[0]) else []) + Print(us[1..])
  }

  /** The bytes of a text. */
  function Ascii(s: string): (b: seq<byte>)
    requires forall i | 0 <= i < |s| :: s[i] as int < 128
    ensures |b| == |s|
  {
    seq<byte>(|s|, i requires 0 <= i < |s| => s[i] as int)
  }

  /** What the administrator's account of a first boot looks like in the file. */
  lemma DefaultLine()
    ensures Print([User(Ascii("root"), Ascii("admin"), 2, true)]) == Ascii("root:admin:2\n")
  {
    var u := User(Ascii("root"), Ascii("admin"), 2, true);
    assert Print([u]) == PrintUser(u) + Print([]);
  }

  function Active(us: seq<User>): (r: seq<User>)
    ensures |r| <= |us| && forall u | u in r :: u.active && u in us
  {
    if us == [] then [] else (if us[0].active then [us[0]] else []) + Active(us[1..])
  }

  // ---------------------------------------------------------------- parsing, as the loops run

  predicate IsSeparator(c: byte) { c == COLON || c == NEWLINE }

  /** Where a field that starts at p ends: at a separator, at the end, or when `room` bytes are read. */
  function FieldEnd(t: seq<byte>, p: nat, room: nat): (q: nat)
    requires p <= |t|
    ensures p <= q <= |t| && q - p <= room
    ensures forall k | p <= k < q :: !IsSeparator(t[k])
    ensures q == |t| || IsSeparator(t[q]) || q - p == room
    decreases |t| - p
  {
    if p == |t| || IsSeparator(t[p]) || room == 0 then p else FieldEnd(t, p + 1, room - 1)
  }

  function LineEnd(t: seq<byte>, p: nat): (q: nat)
    requires p <= |t|
    ensures p <= q <= |t| && (forall k | p <= k < q :: t[k] != NEWLINE) && (q == |t| || t[q] == NEWLINE)
    decreases |t| - p
  {
    if p == |t| || t[p] == NEWLINE then p else LineEnd(t, p + 1)
  }

  function NextLine(t: seq<byte>, p: nat): (q: nat)
    requires p <= |t|
    ensures p <= q <= |t| && (p < |t| ==> p < q)
  {
    var e := LineEnd(t, p);
    if e < |t| then e + 1 else e
  }

  function PrivAt(t: seq<byte>, p: nat): (priv: nat)
    ensures priv <= 9
  {
    if p < |t| && 48 <= t[p] <= 57 then t[p] - 48 else 0
  }

  /** One turn of the parsing loop at p: the user it adds (none for a malformed line) and the next p. */
  function ParseOne(t: seq<byte>, p: nat): (r: (seq<User>, nat))
    requires p < |t|
    ensures p < r.1 <= |t| && |r.0| <= 1
  {
    var q := FieldEnd(t, p, NAME_MAX - 1);
    if q == |t| || t[q] != COLON then ([], NextLine(t, q))
    else
      var s := FieldEnd(t, q + 1, PASS_MAX - 1);
      if s == |t| || t[s] != COLON then ([], NextLine(t, s))
      else
        var next := NextLine(t, s + 1);
        (if q == p then [] else [User(t[p..q], t[q + 1..s], PrivAt(t, s + 1), true)], next)
  }

  /** The parsing loop from p on with n users read so far. */
  function Parse(t: seq<byte>, p: nat, n: nat): (us: seq<User>)
    requires p <= |t| && n <= USER_MAX
    ensures |us| <= USER_MAX - n
    decreases |t| - p
  {
    if p == |t| || n == USER_MAX then []
    else var (u, next) := ParseOne(t, p); u + Parse(t, next, n + |u|)
  }

  // ---------------------------------------------------------------- the format, line by line

  function Lines(t: seq<byte>): (ls: seq<seq<byte>>)
    ensures forall l | l in ls :: NEWLINE !in l
  {
    if t == [] then [] else [t[..LineEnd(t, 0)]] + Lines(t[NextLine(t, 0)..])
  }

  /** Everything before the first occurrence of c, |s| bytes when there is none. */
  function IndexOf(s: seq<byte>, c: byte): (i: nat)
    ensures i <= |s| && c !in s[..i] && (i < |s| ==> s[i] == c)
  {
    if s == [] || s[0] == c then 0 else 1 + IndexOf(s[1..], c)
  }

  /** A line means a user when it reads name:pass:rest with both fields short enough. */
  function ParseLine(l: seq<byte>): (r: seq<User>) {
    var i := IndexOf(l, COLON);
    if i == |l| then []
    else
      var rest := l[i + 1..];
      var j := IndexOf(rest, COLON);
      if j == |rest| || i == 0 || i >= NAME_MAX || j >= PASS_MAX then []
      else [User(l[..i], rest[..j], PrivAt(rest, j + 1), true)]
  }

  function Entries(ls: seq<seq<byte>>): (us: seq<User>) {
    if ls == [] then [] else ParseLine(ls[0]) + Entries(ls[1..])
  }

  function UpTo(us: seq<User>, n: nat): seq<User> { if |us| <= n then us else us[..n] }

  lemma IndexIs(s: seq<byte>, c: byte, i: nat)
    requires i <= |s| && c !in s[..i] && (i < |s| ==> s[i] == c)
    ensures IndexOf(s, c) == i
  {
    if i > 0 {
      assert s[0] == s[..i][0] && s[1..][..i - 1] == s[..i][1..];
      IndexIs(s[1..], c, i - 1);
    }
  }

  lemma LineEndIs(t: seq<byte>, p: nat, e: nat)
    requires p <= e <= |t| && (forall k | p <= k < e :: t[k] != NEWLINE) && (e < |t| ==> t[e] == NEWLINE)
    ensures LineEnd(t, p) == e
  {}

  /** Where p lies in a line does not matter for finding the next one. */
  lemma SameLine(t: seq<byte>, p: nat, q: nat)
    requires p <= q <= |t| && forall k | p <= k < q :: t[k] != NEWLINE
    ensures LineEnd(t, p) == LineEnd(t, q) && NextLine(t, p) == NextLine(t, q)
  {
    LineEndIs(t, p, LineEnd(t, q));
  }

  lemma FieldEndIs(t: seq<byte>, p: nat, room: nat, q: nat)
    requires p <= q <= |t| && q - p <= room && (forall k | p <= k < q :: !IsSeparator(t[k]))
    requires q == |t| || IsSeparator(t[q]) || q - p == room
    ensures FieldEnd(t, p, room) == q
    decreases |t| - p
  {
    if p < q { FieldEndIs(t, p + 1, room - 1, q); }
  }

  /** A field ends at the first colon of the rest of the line, if that is not too far. */
  lemma FieldInLine(t: seq<byte>, p: nat, room: nat)
    requires p <= |t|
    ensures var l := t[p..LineEnd(t, p)];
            var i := IndexOf(l, COLON);
            && FieldEnd(t, p, room) == p + Min(i, room)
            && (p + Min(i, room) < |t| && t[p + Min(i, room)] == COLON <==> i < |l| && i <= room)
  {
    hide FieldEnd, LineEnd, IndexOf;
    var l := t[p..LineEnd(t, p)];
    var i := IndexOf(l, COLON);
    forall k | p <= k < p + i ensures !IsSeparator(t[k]) {
      assert l[..i][k - p] == t[k];
    }
    var q := p + Min(i, room);
    assert i < |l| ==> t[p + i] == l[i] == COLON;
    assert q < p + i ==> t[q] != COLON;
    FieldEndIs(t, p, room, q);
  }

  /** The password field and what follows it, for a field that starts at q. */
  lemma PassInLine(t: seq<byte>, q: nat)
    requires q <= |t|
    ensures var rest := t[q..LineEnd(t, q)];
            var j := IndexOf(rest, COLON);
            var s := FieldEnd(t, q, PASS_MAX - 1);
            && NextLine(t, s) == NextLine(t, q)
            && (s < |t| && t[s] == COLON <==> j < |rest| && j < PASS_MAX)
            && (s < |t| && t[s] == COLON ==>
                  t[q..s] == rest[..j] && NextLine(t, s + 1) == NextLine(t, q) && PrivAt(t, s + 1) == PrivAt(rest, j + 1))
  {
    hide LineEnd, NextLine, IndexOf, FieldEnd, PrivAt, IsSeparator;
    FieldInLine(t, q, PASS_MAX - 1);
    var e := LineEnd(t, q);
    var j := IndexOf(t[q..e], COLON);
    SameLine(t, q, q + Min(j, PASS_MAX - 1));
    if j < e - q && j < PASS_MAX { PassPresent(t, q, e, j); }
  }

  lemma PassPresent(t: seq<byte>, q: nat, e: nat, j: nat)
    requires q + j < e <= |t| && e == LineEnd(t, q)
    ensures t[q..q + j] == t[q..e][..j] && NextLine(t, q + j + 1) == NextLine(t, q)
    ensures PrivAt(t, q + j + 1) == PrivAt(t[q..e], j + 1)
  {
    hide LineEnd, NextLine, PrivAt;
    assert t[q..e][..j] == t[q..q + j];
    SameLine(t, q, q + j + 1);
    PrivInLine(t, q, e, j + 1);
  }

  lemma NoName(l: seq<byte>)
    requires IndexOf(l, COLON) == |l| || IndexOf(l, COLON) >= NAME_MAX
    ensures ParseLine(l) == []
  {}

  lemma SliceOfSlice(t: seq<byte>, p: nat, i: nat, e: nat)
    requires p + i < e <= |t|
    ensures t[p..e][..i] == t[p..p + i] && t[p..e][i + 1..] == t[p + i + 1..e]
  {}

  lemma OneTurnWithName(t: seq<byte>, p: nat, i: nat)
    requires p < |t| && p + i < LineEnd(t, p) && IndexOf(t[p..LineEnd(t, p)], COLON) == i < NAME_MAX
    requires FieldEnd(t, p, NAME_MAX - 1) == p + i && t[p + i] == COLON
    ensures ParseOne(t, p) == (ParseLine(t[p..LineEnd(t, p)]), NextLine(t, p))
  {
    hide LineEnd, NextLine, IndexOf, FieldEnd, ParseLine, ParseOne, IsSeparator, TurnFrom, RestMeans;
    SameLine(t, p, p + i + 1);
    SliceOfSlice(t, p, i, LineEnd(t, p));
    NamedLine(t[p..LineEnd(t, p)], i);
    TurnWithName(t, p, p + i);
    RestOfTurn(t, p + i + 1, t[p..p + i]);
  }

  /** What the rest of a line means behind name and colon. */
  function RestMeans(name: seq<byte>, rest: seq<byte>): seq<User> {
    var j := IndexOf(rest, COLON);
    if j == |rest| || name == [] || j >= PASS_MAX then [] else [User(name, rest[..j], PrivAt(rest, j + 1), true)]
  }

  /** What the turn does behind name and colon. */
  function TurnFrom(t: seq<byte>, q: nat, name: seq<byte>): (seq<User>, nat)
    requires q <= |t|
  {
    var s := FieldEnd(t, q, PASS_MAX - 1);
    if s == |t| || t[s] != COLON then ([], NextLine(t, s))
    else (if name == [] then [] else [User(name, t[q..s], PrivAt(t, s + 1), true)], NextLine(t, s + 1))
  }

  lemma RestOfTurn(t: seq<byte>, q: nat, name: seq<byte>)
    requires q <= |t|
    ensures TurnFrom(t, q, name) == (RestMeans(name, t[q..LineEnd(t, q)]), NextLine(t, q))
  {
    hide LineEnd, NextLine, IndexOf, FieldEnd, PrivAt, IsSeparator;
    PassInLine(t, q);
  }

  lemma TurnWithName(t: seq<byte>, p: nat, q: nat)
    requires p <= q < |t| && FieldEnd(t, p, NAME_MAX - 1) == q && t[q] == COLON
    ensures ParseOne(t, p) == TurnFrom(t, q + 1, t[p..q])
  {
    hide NextLine, FieldEnd, PrivAt;
    assert t[p..q] == [] <==> p == q;
  }

  lemma NamedLine(l: seq<byte>, i: nat)
    requires IndexOf(l, COLON) == i < |l| && i < NAME_MAX
    ensures ParseLine(l) == RestMeans(l[..i], l[i + 1..])
  {
    hide IndexOf, PrivAt;
    assert l[..i] == [] <==> i == 0;
  }

  /** A turn of the loop reads one line, as the format says. */
  lemma OneTurnIsOneLine(t: seq<byte>, p: nat)
    requires p < |t|
    ensures ParseOne(t, p) == (ParseLine(t[p..LineEnd(t, p)]), NextLine(t, p))
  {
    hide LineEnd, NextLine, IndexOf, FieldEnd, PrivAt, ParseLine;
    var l := t[p..LineEnd(t, p)];
    var i := IndexOf(l, COLON);
    FieldInLine(t, p, NAME_MAX - 1);
    if i < |l| && i < NAME_MAX {
      hide ParseOne;
      OneTurnWithName(t, p, i);
    } else {
      SameLine(t, p, p + Min(i, NAME_MAX - 1));
      NoName(l);
    }
  }

  lemma PrivInLine(t: seq<byte>, q: nat, e: nat, j: nat)
    requires q + j <= e <= |t| && (e == |t| || t[e] == NEWLINE)
    ensures PrivAt(t, q + j) == PrivAt(t[q..e], j)
  {}

  /** What the line name:pass:rest means: the privilege is the digit behind the second colon, 0 when there
      is none. */
  lemma LineMeans(name: seq<byte>, pass: seq<byte>, rest: seq<byte>, digit: nat)
    requires 0 < |name| < NAME_MAX && |pass| < PASS_MAX && COLON !in name && COLON !in pass && digit <= 9
    requires if rest != [] && 48 <= rest[0] <= 57 then rest[0] - 48 == digit else digit == 0
    ensures ParseLine(name + [COLON] + (pass + [COLON] + rest)) == [User(name, pass, digit, true)]
  {
    var tail := pass + [COLON] + rest;
    var l := name + [COLON] + tail;
    assert l[..|name|] == name && l[|name| + 1..] == tail;
    assert tail[..|pass|] == pass && tail[|pass| + 1..] == rest;
    assert rest != [] ==> tail[|pass| + 1] == rest[0];
    IndexIs(l, COLON, |name|);
    IndexIs(tail, COLON, |pass|);
    hide IndexOf;
  }

  lemma EntriesCons(l: seq<byte>, ls: seq<seq<byte>>)
    ensures Entries([l] + ls) == ParseLine(l) + Entries(ls)
  {
    hide ParseLine;
    assert ([l] + ls)[1..] == ls;
  }

  lemma LinesCons(t: seq<byte>)
    requires t != []
    ensures Entries(Lines(t)) == ParseLine(t[..LineEnd(t, 0)]) + Entries(Lines(t[NextLine(t, 0)..]))
  {
    hide LineEnd, NextLine, ParseLine, Entries;
    EntriesCons(t[..LineEnd(t, 0)], Lines(t[NextLine(t, 0)..]));
  }

  lemma FirstLine(t: seq<byte>, p: nat)
    requires p < |t|
    ensures Entries(Lines(t[p..])) == ParseLine(t[p..LineEnd(t, p)]) + Entries(Lines(t[NextLine(t, p)..]))
  {
    hide LineEnd, NextLine, ParseLine, Entries, Lines;
    ShiftLine(t, p);
    LinesCons(t[p..]);
    assert t[p..][NextLine(t[p..], 0)..] == t[NextLine(t, p)..];
    assert t[p..][..LineEnd(t[p..], 0)] == t[p..LineEnd(t, p)];
  }

  lemma ParseStop(t: seq<byte>, p: nat, n: nat)
    requires p <= |t| && n <= USER_MAX && (p == |t| || n == USER_MAX)
    ensures Parse(t, p, n) == [] == UpTo(Entries(Lines(t[p..])), USER_MAX - n)
  {
    assert p == |t| ==> t[p..] == [];
  }

  lemma ParseTurn(t: seq<byte>, p: nat, n: nat)
    requires p < |t| && n < USER_MAX
    ensures var (u, next) := ParseOne(t, p); Parse(t, p, n) == u + Parse(t, next, n + |u|)
  {
    hide ParseOne;
  }

  /** The loop reads the users of the lines, in order, until 16 are read. */
  lemma {:induction false} ParseIsByLines(t: seq<byte>, p: nat, n: nat)
    requires p <= |t| && n <= USER_MAX
    ensures Parse(t, p, n) == UpTo(Entries(Lines(t[p..])), USER_MAX - n)
    decreases |t| - p
  {
    hide LineEnd, NextLine, ParseOne, ParseLine, Lines, Entries, UpTo, Parse;
    if p == |t| || n == USER_MAX {
      ParseStop(t, p, n);
    } else {
      OneTurnIsOneLine(t, p);
      FirstLine(t, p);
      ParseTurn(t, p, n);
      var (u, next) := ParseOne(t, p);
      ParseIsByLines(t, next, n + |u|);
      UpToLater(u, Entries(Lines(t[next..])), USER_MAX - n);
    }
  }

  lemma UpToLater(u: seq<User>, us: seq<User>, n: nat)
    requires |u| <= n
    ensures UpTo(u + us, n) == u + UpTo(us, n - |u|)
  {}

  lemma ShiftLine(t: seq<byte>, p: nat)
    requires p < |t|
    ensures LineEnd(t[p..], 0) == LineEnd(t, p) - p && NextLine(t[p..], 0) == NextLine(t, p) - p
  {
    LineEndIs(t[p..], 0, LineEnd(t, p) - p);
  }

  // ---------------------------------------------------------------- saving and loading

  lemma LineOfText(l: seq<byte>, rest: seq<byte>)
    requires NEWLINE !in l
    ensures var t := l + [NEWLINE] + rest;
            LineEnd(t, 0) == |l| && NextLine(t, 0) == |l| + 1 && t[..|l|] == l && t[|l| + 1..] == rest
  {
    LineEndIs(l + [NEWLINE] + rest, 0, |l|);
  }

  lemma FieldThenColon(field: seq<byte>, rest: seq<byte>)
    requires COLON !in field
    ensures var l := field + [COLON] + rest;
            IndexOf(l, COLON) == |field| && l[..|field|] == field && l[|field| + 1..] == rest
  {
    var l := field + [COLON] + rest;
    assert l[..|field|] == field;
    IndexIs(l, COLON, |field|);
  }

  /** A printed line means the user it was printed for. */
  lemma LineMeansUser(u: User)
    requires WellFormed(u) && u.active
    ensures ParseLine(u.name + [COLON] + (u.pass + [COLON] + [PrivChar(u.priv)])) == [u]
  {
    hide IndexOf;
    var tail := u.pass + [COLON] + [PrivChar(u.priv)];
    FieldThenColon(u.name, tail);
    FieldThenColon(u.pass, [PrivChar(u.priv)]);
    assert PrivAt(tail, |u.pass| + 1) == u.priv;
  }

  lemma PrintedUser(u: User, rest: seq<byte>)
    requires WellFormed(u) && u.active
    ensures Entries(Lines(PrintUser(u) + rest)) == [u] + Entries(Lines(rest))
  {
    hide IndexOf, LineEnd, NextLine, ParseLine, Entries, Lines;
    var l := u.name + [COLON] + (u.pass + [COLON] + [PrivChar(u.priv)]);
    assert PrintUser(u) + rest == l + [NEWLINE] + rest;
    LineMeansUser(u);
    LineOfText(l, rest);
    LinesCons(l + [NEWLINE] + rest);
  }

  lemma {:induction false} PrintedLines(us: seq<User>)
    requires forall u | u in us && u.active :: WellFormed(u)
    ensures Entries(Lines(Print(us))) == Active(us)
  {
    if us != [] {
      PrintedLines(us[1..]);
      if us[0].active {
        PrintedUser(us[0], Print(us[1..]));
      } else {
        assert Print(us) == Print(us[1..]) && Active(us) == Active(us[1..]);
      }
    }
  }

  /** Loading what was saved gives the active users in order. */
  lemma LoadOfSave(us: seq<User>)
    requires |us| <= USER_MAX && forall u | u in us && u.active :: WellFormed(u)
    ensures Parse(Print(us), 0, 0) == Active(us)
  {
    PrintedLines(us);
    ParseIsByLines(Print(us), 0, 0);
    assert Print(us)[0..] == Print(us);
  }

  lemma {:induction false} ParsedAreWellFormed(t: seq<byte>, p: nat, n: nat)
    requires p <= |t| && n <= USER_MAX
    ensures forall u | u in Parse(t, p, n) :: WellFormed(u) && u.active
    decreases |t| - p
  {
    if p < |t| && n < USER_MAX {
      var (us, next) := ParseOne(t, p);
      OneIsWellFormed(t, p);
      ParsedAreWellFormed(t, next, n + |us|);
      hide ParseOne, WellFormed;
    }
  }

  lemma OneIsWellFormed(t: seq<byte>, p: nat)
    requires p < |t|
    ensures forall u | u in ParseOne(t, p).0 :: WellFormed(u) && u.active
  {
    hide FieldEnd, NextLine;
    var q := FieldEnd(t, p, NAME_MAX - 1);
    var name := t[p..q];
    assert forall c | c in name :: !IsSeparator(c);
    if q < |t| {
      var s := FieldEnd(t, q + 1, PASS_MAX - 1);
      var pass := t[q + 1..s];
      assert forall c | c in pass :: !IsSeparator(c);
    }
  }

  /** Loading gives back the active users exactly when each of them is well formed. */
  lemma LoadOfSaveIff(us: seq<User>)
    requires |us| <= USER_MAX
    ensures Parse(Print(us), 0, 0) == Active(us) <==> forall u | u in us && u.active :: WellFormed(u)
  {
    ParsedAreWellFormed(Print(us), 0, 0);
    ActiveHasAll(us);
    if forall u | u in us && u.active :: WellFormed(u) { LoadOfSave(us); }
  }

  /** user_add takes a user named a:b into any table with room; the saved text then does not give the
      table back. */
  lemma ColonIsLost(us: seq<User>, pass: seq<byte>, priv: nat)
    requires |us| < USER_MAX && |pass| < PASS_MAX && priv < 256
    ensures var added := us + [User([97, COLON, 98], pass, priv, true)];
            Stored(added[|us|]) && Parse(Print(added), 0, 0) != Active(added)
  {
    var u := User([97, COLON, 98], pass, priv, true);
    var added := us + [u];
    assert added[|us|] == u && !WellFormed(u);
    LoadOfSaveIff(added);
  }

  lemma {:induction false} ActiveHasAll(us: seq<User>)
    ensures forall u | u in us && u.active :: u in Active(us)
  {
    if us != [] { ActiveHasAll(us[1..]); }
  }

  lemma {:induction false} AllActive(us: seq<User>)
    requires forall u | u in us :: u.active
    ensures Active(us) == us
  {
    if us != [] { AllActive(us[1..]); }
  }

  /** For any text, saving the users read from it and reading them again gives the same users. */
  lemma LoadSaveLoad(t: seq<byte>)
    ensures Parse(Print(Parse(t, 0, 0)), 0, 0) == Parse(t, 0, 0)
  {
    var us := Parse(t, 0, 0);
    ParsedAreWellFormed(t, 0, 0);
    LoadOfSave(us);
    AllActive(us);
  }

  /** The printer's buffer has room for any table. */
  lemma {:induction false} PrintFits(us: seq<User>)
    requires forall u | u in us :: Stored(u)
    ensures |Print(us)| <= 50 * |us|
    ensures |us| <= USER_MAX ==> |Print(us)| <= USER_MAX * (NAME_MAX + PASS_MAX + 8)
  {
    if us != [] {
      assert us[0] in us && forall u | u in us[1..] :: u in us;
      PrintFits(us[1..]);
    }
  }

  lemma {:induction false} PrintSnoc(us: seq<User>, u: User)
    ensures Print(us + [u]) == Print(us) + if u.active then PrintUser(u) else []
  {
    hide PrintUser;
    if us != [] {
      assert (us + [u])[1..] == us[1..] + [u];
      PrintSnoc(us[1..], u);
    } else {
      assert us + [u] == [u] && Print([]) == [];
    }
  }

  // ---------------------------------------------------------------- the loops themselves

  class UserTable {
    const users: array<User>
    var count: nat

    constructor ()
      ensures Valid() && count == 0 && fresh(users)
    {
      users := new User[USER_MAX](_ => User([], [], 0, false));
      count := 0;
    }

    ghost predicate Valid()
      reads this, users
    {
      users.Length == USER_MAX && count <= USER_MAX && forall i | 0 <= i < USER_MAX :: Stored(users[i])
    }

    /** `while (*n) buf[pos++] = *n++;` */
    static method Append(buf: array<byte>, pos: nat, s: seq<byte>) returns (end: nat)
      requires pos + |s| <= buf.Length
      modifies buf
      ensures end == pos + |s| && buf[..end] == old(buf[..pos]) + s
    {
      end := pos;
      for k := 0 to |s|
        invariant end == pos + k && buf[..end] == old(buf[..pos]) + s[..k]
      {
        buf[end] := s[k];
        end := end + 1;
      }
    }

    /** users_save up to the file operations; the buffer is large enough. */
    method Save(buf: array<byte>) returns (pos: nat)
      requires Valid() && buf.Length == USER_MAX * (NAME_MAX + PASS_MAX + 8)
      modifies buf
      ensures pos <= buf.Length && buf[..pos] == Print(users[..count])
    {
      assert Print([]) == [];
      hide PrintUser, Print;
      pos := 0;
      for i := 0 to count
        invariant pos <= 50 * i && buf[..pos] == Print(users[..i])
      {
        assert users[..i + 1] == users[..i] + [users[i]];
        PrintSnoc(users[..i], users[i]);
        if users[i].active {
          pos := SaveUser(buf, pos, users[i]);
        }
      }
    }

    static method SaveUser(buf: array<byte>, pos: nat, u: User) returns (end: nat)
      requires Stored(u) && pos + 50 <= buf.Length
      modifies buf
      ensures end <= pos + 50 && buf[..end] == old(buf[..pos]) + PrintUser(u)
    {
      end := AppendField(buf, pos, u.name);
      end := AppendField(buf, end, u.pass);
      buf[end], buf[end + 1] := PrivChar(u.priv), NEWLINE;
      assert buf[..end + 2] == buf[..end] + [PrivChar(u.priv)] + [NEWLINE];
      end := end + 2;
    }

    /** A field and its colon. */
    static method AppendField(buf: array<byte>, pos: nat, s: seq<byte>) returns (end: nat)
      requires pos + |s| < buf.Length
      modifies buf
      ensures end == pos + |s| + 1 && buf[..end] == old(buf[..pos]) + s + [COLON]
    {
      end := Append(buf, pos, s);
      buf[end] := COLON;
      end := end + 1;
    }

    /** `while (*p && *p != ':' && *p != '\n' && n < room) field[n++] = *p++;` */
    static method ReadField(t: seq<byte>, p: nat, room: nat) returns (field: seq<byte>, q: nat)
      requires p <= |t|
      ensures q == FieldEnd(t, p, room) && field == t[p..q]
    {
      q, field := p, [];
      while q < |t| && t[q] != COLON && t[q] != NEWLINE && |field| < room
        invariant p <= q <= |t| && field == t[p..q] && |field| <= room
        invariant FieldEnd(t, p, room) == FieldEnd(t, q, room - |field|)
      {
        assert t[p..q + 1] == t[p..q] + [t[q]];
        field := field + [t[q]];
        q := q + 1;
      }
    }

    /** `while (*p && *p != '\n') p++; if (*p) p++;` */
    static method SkipLine(t: seq<byte>, p: nat) returns (q: nat)
      requires p <= |t|
      ensures q == NextLine(t, p)
    {
      q := p;
      while q < |t| && t[q] != NEWLINE
        invariant p <= q <= |t| && LineEnd(t, p) == LineEnd(t, q)
      {
        q := q + 1;
      }
      if q < |t| { q := q + 1; }
    }

    /** The body of the parsing loop up to storing the user. */
    static method ReadUser(t: seq<byte>, p: nat) returns (u: seq<User>, next: nat)
      requires p < |t|
      ensures (u, next) == ParseOne(t, p)
    {
      hide FieldEnd, NextLine;
      var name, q := ReadField(t, p, NAME_MAX - 1);
      if q == |t| || t[q] != COLON {
        next := SkipLine(t, q);
        return [], next;
      }
      var pass, s := ReadField(t, q + 1, PASS_MAX - 1);
      if s == |t| || t[s] != COLON {
        next := SkipLine(t, s);
        return [], next;
      }
      var priv := 0;
      if s + 1 < |t| && 48 <= t[s + 1] <= 57 { priv := t[s + 1] - 48; }
      next := SkipLine(t, s + 1);
      u := if name == [] then [] else [User(name, pass, priv, true)];
    }

    /** users_load after the file was read; the slots past the users read keep their old contents. */
    method Load(t: seq<byte>)
      requires Valid()
      modifies this`count, users
      ensures Valid() && users[..count] == Parse(t, 0, 0)
    {
      hide ParseOne, Parse;
      count := 0;
      var p := 0;
      while p < |t| && count < USER_MAX
        invariant Valid() && p <= |t| && users[..count] + Parse(t, p, count) == Parse(t, 0, 0)
        decreases |t| - p
      {
        ParseTurn(t, p, count);
        OneIsWellFormed(t, p);
        var u, next := ReadUser(t, p);
        if u != [] {
          assert u == [u[0]] && u[0] in u;
          users[count] := u[0];
          count := count + 1;
          assert users[..count] == users[..count - 1] + u;
        }
        p := next;
      }
      ParseStop(t, p, count);
    }
  }
}

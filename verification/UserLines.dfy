/** What account files mean, said line by line for any text: which lines count, and what each of them
    says. Fields are found by counting separators; the functions the loader is proved against are not
    used to say it. */
module UserLines {
  import opened UserText

  // ----- Lines and fields

  function Count(s: string, c: char): nat {
    if s == "" then 0 else (if s[0] == c then 1 else 0) + Count(s[1..], c)
  }

  /** The pieces with a separator between them. */
  function Glued(pieces: seq<string>, c: char): string {
    if pieces == [] then "" else if |pieces| == 1 then pieces[0] else pieces[0] + [c] + Glued(pieces[1..], c)
  }

  ghost predicate Without(pieces: seq<string>, c: char) {
    forall i :: 0 <= i < |pieces| ==> c !in pieces[i]
  }

  /** The lines of a text, with or without a line break at its end. */
  ghost predicate LinesOf(text: string, lines: seq<string>) {
    Without(lines, '\n') && (text == Glued(lines, '\n') || (lines != [] && text == Glued(lines, '\n') + "\n"))
  }

  /** The lines of a file: what stands before its first zero byte counts. */
  ghost predicate FileLines(data: string, lines: seq<string>) {
    exists text :: '\0' !in text && (data == text || (text + "\0" <= data)) && LinesOf(text, lines)
  }

  /** The lines with at least `n` colons. */
  function Formed(lines: seq<string>, n: nat): seq<string> {
    if lines == [] then [] else (if Count(lines[0], ':') >= n then [lines[0]] else []) + Formed(lines[1..], n)
  }

  /** A field as it is kept: its first `max` characters. */
  predicate Kept(field: string, kept: string, max: nat) {
    kept <= field && |kept| == if |field| <= max then |field| else max
  }

  /** The number that the digits of a text spell, of any size; other characters do not count. */
  function Spelled(s: string): nat {
    if s == "" then 0
    else if '0' <= s[|s| - 1] <= '9' then 10 * Spelled(s[..|s| - 1]) + (s[|s| - 1] - '0') as nat
    else Spelled(s[..|s| - 1])
  }

  lemma {:induction false} DigitsAre(s: string)
    ensures Digits(s) == Spelled(s) % WORD64
  {
    if s != "" {
      DigitsAre(s[..|s| - 1]);
      WrapOn(Spelled(s[..|s| - 1]), s[|s| - 1] as nat - '0' as nat);
    }
  }

  lemma WrapOn(n: nat, d: int)
    ensures (n % WORD64 * 10 + d) % WORD64 == (10 * n + d) % WORD64
  {
  }

  lemma NumberIs(s: string)
    ensures Number(s) == Spelled(s) % WORD32
  {
    DigitsAre(s);
    WrapTwice(Spelled(s));
  }

  lemma WrapTwice(n: nat)
    ensures n % WORD64 % WORD32 == n % WORD32
  {
  }

  /** Printed numbers have no digits but those of the number, and no zero in front. */
  lemma {:induction false} DecimalSpells(n: nat)
    ensures Spelled(Decimal(n)) == n && (Decimal(n)[0] == '0' ==> Decimal(n) == "0")
  {
    var s := Decimal(n);
    if n >= 10 {
      DecimalSpells(n / 10);
      assert s[..|s| - 1] == Decimal(n / 10);
    } else {
      assert s[..0] == "";
    }
  }

  // ----- Users

  /** A line says this of a user: name, numbers and home directory before the first four colons, the
      shell behind them. */
  ghost predicate SaysUser(line: string, u: User) {
    exists name, uid, gid, home, shell :: FieldsSay(line, name, uid, gid, home, shell, u)
  }

  ghost predicate FieldsSay(line: string, name: string, uid: string, gid: string, home: string, shell: string, u: User) {
    && line == name + ":" + uid + ":" + gid + ":" + home + ":" + shell
    && Count(name, ':') == 0 && Count(uid, ':') == 0 && Count(gid, ':') == 0 && Count(home, ':') == 0
    && Kept(name, u.name, 31) && u.uid == Spelled(uid) % WORD32 && u.gid == Spelled(gid) % WORD32
    && Kept(home, u.home, 31) && Kept(shell, u.shell, 31) && u.hash == ""
  }

  /** The users of the lines: the first 64 that have four colons, in order. */
  ghost predicate SayUsers(lines: seq<string>, us: seq<User>, room: nat) {
    var good := Formed(lines, 4);
    && |us| == (if |good| <= room then |good| else room)
    && forall i :: 0 <= i < |us| ==> SaysUser(good[i], us[i])
  }

  lemma {:induction false} CountConcat(a: string, b: string, c: char)
    ensures Count(a + b, c) == Count(a, c) + Count(b, c)
  {
    if a == "" {
      assert a + b == b;
    } else {
      assert (a + b)[1..] == a[1..] + b;
      CountConcat(a[1..], b, c);
    }
  }

  lemma {:induction false} CountNone(s: string, c: char)
    ensures Count(s, c) == 0 <==> c !in s
  {
    if s != "" {
      CountNone(s[1..], c);
      assert s == [s[0]] + s[1..];
    }
  }

  /** The part before the first separator and the part behind it. */
  lemma SplitAt(s: string, c: char)
    ensures Has(s, c) <==> Count(s, c) > 0
    ensures Has(s, c) ==> s == Before(s, c) + [c] + After(s, c) && Count(Before(s, c), c) == 0 && Count(s, c) == 1 + Count(After(s, c), c)
    ensures !Has(s, c) ==> Before(s, c) == s && After(s, c) == ""
  {
    CountNone(s, c);
    var k := Index(s, c);
    if Has(s, c) {
      assert s[k] in s;
      assert s == s[..k] + [c] + s[k + 1..];
      CountNone(s[..k], c);
      CountConcat(s[..k] + [c], s[k + 1..], c);
      CountConcat(s[..k], [c], c);
      assert [c][1..] == "";
    } else {
      assert s[..k] == s;
    }
  }

  lemma CutIsKept(s: string, max: nat)
    ensures Kept(s, Cut(s, max), max)
  {
  }

  lemma LineUser(line: string)
    ensures ParseUser(line).Some? <==> Count(line, ':') >= 4
    ensures ParseUser(line).Some? ==> SaysUser(line, ParseUser(line).value)
  {
    hide Index, Has, Before, After, Spelled, Number, Count, Cut, Kept;
    var r1 := After(line, ':');
    var r2 := After(r1, ':');
    var r3 := After(r2, ':');
    SplitAt(line, ':');
    SplitAt(r1, ':');
    SplitAt(r2, ':');
    SplitAt(r3, ':');
    SplitNothing();
    if Has(line, ':') && Has(r1, ':') && Has(r2, ':') && Has(r3, ':') {
      var a, b, c, d, e := Before(line, ':'), Before(r1, ':'), Before(r2, ':'), Before(r3, ':'), After(r3, ':');
      FiveParts(line, a, r1, b, r2, c, r3, d, e);
      NumberIs(b);
      NumberIs(c);
      CutIsKept(a, 31);
      CutIsKept(d, 31);
      CutIsKept(e, 31);
      assert FieldsSay(line, a, b, c, d, e, ParseUser(line).value);
    }
  }

  lemma SplitNothing()
    ensures !Has("", ':') && Count("", ':') == 0
  {
  }

  lemma FiveParts(line: string, a: string, r1: string, b: string, r2: string, c: string, r3: string, d: string, e: string)
    requires line == a + ":" + r1 && r1 == b + ":" + r2 && r2 == c + ":" + r3 && r3 == d + ":" + e
    ensures line == a + ":" + b + ":" + c + ":" + d + ":" + e
  {
  }

  /** The first line of a text, and what the others are the lines of. */
  lemma FirstLine(text: string, lines: seq<string>) returns (rest: string)
    requires LinesOf(text, lines) && lines != []
    ensures LinesOf(rest, lines[1..]) && '\n' !in lines[0]
    ensures if text == "" then lines == [""] && rest == "" else Before(text, '\n') == lines[0] && After(text, '\n') == rest
  {
    hide Index;
    if |lines| == 1 {
      rest := "";
      if text == Glued(lines, '\n') {
        Whole(lines[0], '\n');
      } else {
        Splits(lines[0], '\n', "");
        assert lines[0] + ['\n'] + "" == text;
      }
    } else {
      rest := Glued(lines[1..], '\n') + if text == Glued(lines, '\n') then "" else "\n";
      assert text == lines[0] + ['\n'] + rest;
      Splits(lines[0], '\n', rest);
    }
  }

  lemma SayMore(lines: seq<string>, us: seq<User>, room: nat, u: User)
    requires lines != [] && Count(lines[0], ':') >= 4 && SayUsers(lines[1..], us, room) && SaysUser(lines[0], u)
    ensures SayUsers(lines, [u] + us, room + 1)
  {
    hide SaysUser, Count;
    var good := Formed(lines, 4);
    assert good == [lines[0]] + Formed(lines[1..], 4);
  }

  /** The loader finds exactly the users of the lines: a line with fewer than four colons counts for
      nothing, wherever it stands. */
  lemma {:induction false} UsersOfLines(lines: seq<string>, text: string, room: nat)
    requires LinesOf(text, lines)
    ensures SayUsers(lines, ParseUsers(text, room), room)
    decreases |lines|
  {
    hide Index, Before, After, SaysUser, ParseUser, Count, Glued;
    if lines == [] {
      NoLines(text, '\n');
    } else {
      var rest := FirstLine(text, lines);
      LineUser(lines[0]);
      if text == "" {
        CountNothing();
        assert lines[1..] == [] && Formed(lines, 4) == [] && ParseUsers(text, room) == [];
      } else if room > 0 {
        if Count(lines[0], ':') >= 4 {
          UsersOfLines(lines[1..], rest, room - 1);
          SayMore(lines, ParseUsers(rest, room - 1), room - 1, ParseUser(lines[0]).value);
        } else {
          UsersOfLines(lines[1..], rest, room);
        }
      }
    }
  }

  lemma CountNothing()
    ensures Count("", ':') == 0
  {
  }

  lemma NoLines(text: string, c: char)
    requires LinesOf(text, [])
    ensures text == ""
  {
  }

  /** A line with fewer than four colons can be put in anywhere, or taken out. */
  lemma LineIgnored(front: seq<string>, line: string, back: seq<string>, room: nat)
    requires Without(front + back, '\n') && '\n' !in line && Count(line, ':') < 4
    ensures ParseUsers(Glued(front + [line] + back, '\n'), room) == ParseUsers(Glued(front + back, '\n'), room)
  {
    hide Count, Glued;
    var more, fewer := front + [line] + back, front + back;
    forall i | 0 <= i < |more|
      ensures '\n' !in more[i]
    {
      if i < |front| { assert more[i] == fewer[i]; }
      if i > |front| { assert more[i] == fewer[i - 1]; }
    }
    FormedConcat(front + [line], back, 4);
    FormedConcat(front, [line], 4);
    FormedConcat(front, back, 4);
    assert [line][1..] == [] && Formed([line], 4) == [];
    assert Formed(more, 4) == Formed(fewer, 4);
    UsersOfLines(more, Glued(more, '\n'), room);
    UsersOfLines(fewer, Glued(fewer, '\n'), room);
    SameUsers(Formed(fewer, 4), ParseUsers(Glued(more, '\n'), room), ParseUsers(Glued(fewer, '\n'), room));
  }

  lemma {:induction false} FormedConcat(a: seq<string>, b: seq<string>, n: nat)
    ensures Formed(a + b, n) == Formed(a, n) + Formed(b, n)
  {
    hide Count;
    if a == [] {
      assert a + b == b;
    } else {
      assert (a + b)[1..] == a[1..] + b;
      FormedConcat(a[1..], b, n);
    }
  }

  lemma SameUsers(lines: seq<string>, us: seq<User>, vs: seq<User>)
    requires |us| == |vs| <= |lines|
    requires forall i :: 0 <= i < |us| ==> SaysUser(lines[i], us[i]) && SaysUser(lines[i], vs[i])
    ensures us == vs
  {
    hide SaysUser;
    forall i | 0 <= i < |us|
      ensures us[i] == vs[i]
    {
      SameUser(lines[i], us[i], vs[i]);
    }
  }

  /** A line says one thing only. */
  lemma SameUser(line: string, u: User, v: User)
    requires SaysUser(line, u) && SaysUser(line, v)
    ensures u == v
  {
    hide FieldsSay;
    var a, b, c, d, e :| FieldsSay(line, a, b, c, d, e, u);
    var a', b', c', d', e' :| FieldsSay(line, a', b', c', d', e', v);
    SameParts(line, a, b, c, d, e, u, a', b', c', d', e', v);
    SameFields(line, a, b, c, d, e, u, v);
  }

  lemma SameParts(line: string, a: string, b: string, c: string, d: string, e: string, u: User,
                  a': string, b': string, c': string, d': string, e': string, v: User)
    requires FieldsSay(line, a, b, c, d, e, u) && FieldsSay(line, a', b', c', d', e', v)
    ensures a == a' && b == b' && c == c' && d == d' && e == e'
  {
    hide Before, After, Spelled, Kept, Count;
    Parts(line, a, b, c, d, e);
    Parts(line, a', b', c', d', e');
  }

  lemma SameFields(line: string, a: string, b: string, c: string, d: string, e: string, u: User, v: User)
    requires FieldsSay(line, a, b, c, d, e, u) && FieldsSay(line, a, b, c, d, e, v)
    ensures u == v
  {
    hide Spelled, Count, Kept;
    KeptOnce(a, u.name, v.name, 31);
    KeptOnce(d, u.home, v.home, 31);
    KeptOnce(e, u.shell, v.shell, 31);
  }

  lemma KeptOnce(s: string, k: string, l: string, max: nat)
    ensures Kept(s, k, max) && Kept(s, l, max) ==> k == l
  {
  }

  lemma Parts(line: string, a: string, b: string, c: string, d: string, e: string)
    requires line == a + ":" + b + ":" + c + ":" + d + ":" + e
    requires Count(a, ':') == 0 && Count(b, ':') == 0 && Count(c, ':') == 0 && Count(d, ':') == 0
    ensures var r1 := After(line, ':');
      var r2 := After(r1, ':');
      var r3 := After(r2, ':');
      a == Before(line, ':') && b == Before(r1, ':') && c == Before(r2, ':') && d == Before(r3, ':') && e == After(r3, ':')
  {
    hide Has, Before, After, Count;
    var r3 := d + ":" + e;
    var r2 := c + ":" + r3;
    var r1 := b + ":" + r2;
    FiveParts(a + ":" + r1, a, r1, b, r2, c, r3, d, e);
    FirstPart(a, r1);
    FirstPart(b, r2);
    FirstPart(c, r3);
    FirstPart(d, e);
  }

  lemma FirstPart(a: string, rest: string)
    requires Count(a, ':') == 0
    ensures Before(a + ":" + rest, ':') == a && After(a + ":" + rest, ':') == rest
  {
    hide Before, After, Has;
    CountNone(a, ':');
    Splits(a, ':', rest);
  }

  // ----- Groups

  /** The members of a list: what the commas separate; a comma at the end opens no further one. */
  ghost predicate PiecesOf(s: string, pieces: seq<string>) {
    && Without(pieces, ',') && (s == "" <==> pieces == [])
    && (s != "" ==> (s == Glued(pieces, ',') && pieces[|pieces| - 1] != "") || s == Glued(pieces, ',') + ",")
  }

  ghost predicate SaysMembers(s: string, ms: seq<nat>, room: nat) {
    exists pieces :: PiecesOf(s, pieces) && Numbered(pieces, ms, room)
  }

  ghost predicate Numbered(pieces: seq<string>, ms: seq<nat>, room: nat) {
    |ms| == (if |pieces| <= room then |pieces| else room) && forall i :: 0 <= i < |ms| ==> ms[i] == Spelled(pieces[i]) % WORD32
  }

  ghost predicate SaysGroup(line: string, g: Group) {
    exists name, gid, members ::
      && line == name + ":" + gid + ":" + members && Count(name, ':') == 0 && Count(gid, ':') == 0
      && Kept(name, g.name, 31) && g.gid == Spelled(gid) % WORD32 && SaysMembers(members, g.members, 32)
  }

  /** The groups of the lines: the first 64 that have two colons, in order. */
  ghost predicate SayGroups(lines: seq<string>, gs: seq<Group>, room: nat) {
    var good := Formed(lines, 2);
    && |gs| == (if |good| <= room then |good| else room)
    && forall i :: 0 <= i < |gs| ==> SaysGroup(good[i], gs[i])
  }

  lemma CommaAt(s: string)
    ensures Has(s, ',') ==> s == Before(s, ',') + "," + After(s, ',') && ',' !in Before(s, ',')
    ensures !Has(s, ',') ==> Before(s, ',') == s && After(s, ',') == "" && ',' !in s
  {
    var k := Index(s, ',');
    if Has(s, ',') {
      assert s == s[..k] + [','] + s[k + 1..];
    } else {
      assert s[..k] == s;
    }
  }

  lemma PiecesMore(s: string, head: string, tail: string, rest: seq<string>)
    requires s != "" && PiecesOf(tail, rest) && ',' !in head
    requires (s == head && tail == "") || s == head + "," + tail
    ensures PiecesOf(s, [head] + rest)
  {
    assert ([head] + rest)[1..] == rest;
  }

  lemma NumberedMore(head: string, rest: seq<string>, ms: seq<nat>, room: nat)
    requires Numbered(rest, ms, room)
    ensures Numbered([head] + rest, [Number(head)] + ms, room + 1)
  {
    hide Number, Spelled;
    NumberIs(head);
  }

  lemma {:induction false} MembersSaid(s: string) returns (pieces: seq<string>)
    ensures PiecesOf(s, pieces)
    ensures forall room: nat :: Numbered(pieces, ParseMembers(s, room), room)
    decreases |s|
  {
    hide Index, Has, Before, After, Spelled, Number, PiecesOf;
    if s == "" {
      pieces := [];
      NoPieces();
    } else {
      CommaAt(s);
      var head, tail := Before(s, ','), After(s, ',');
      var rest := MembersSaid(tail);
      pieces := [head] + rest;
      PiecesMore(s, head, tail, rest);
      forall room: nat
        ensures Numbered(pieces, ParseMembers(s, room), room)
      {
        if room > 0 { NumberedMore(head, rest, ParseMembers(tail, room - 1), room - 1); }
      }
    }
  }

  lemma NoPieces()
    ensures PiecesOf("", [])
  {
  }

  lemma LineGroup(line: string)
    ensures ParseGroup(line).Some? <==> Count(line, ':') >= 2
    ensures ParseGroup(line).Some? ==> SaysGroup(line, ParseGroup(line).value)
  {
    hide Index, Has, Before, After, Spelled, Number, Count, Cut, Kept, PiecesOf, Numbered, ParseMembers;
    var r1 := After(line, ':');
    SplitAt(line, ':');
    SplitAt(r1, ':');
    SplitNothing();
    if Has(line, ':') && Has(r1, ':') {
      var a, b, c := Before(line, ':'), Before(r1, ':'), After(r1, ':');
      assert line == a + ":" + b + ":" + c;
      NumberIs(b);
      CutIsKept(a, 31);
      var pieces := MembersSaid(c);
      assert Numbered(pieces, ParseMembers(c, 32), 32);
      assert SaysMembers(c, ParseMembers(c, 32), 32);
    }
  }

  lemma SayMoreGroups(lines: seq<string>, gs: seq<Group>, room: nat, g: Group)
    requires lines != [] && Count(lines[0], ':') >= 2 && SayGroups(lines[1..], gs, room) && SaysGroup(lines[0], g)
    ensures SayGroups(lines, [g] + gs, room + 1)
  {
    hide SaysGroup, Count;
    var good := Formed(lines, 2);
    assert good == [lines[0]] + Formed(lines[1..], 2);
  }

  /** The loader finds exactly the groups of the lines. */
  lemma {:induction false} GroupsOfLines(lines: seq<string>, text: string, room: nat)
    requires LinesOf(text, lines)
    ensures SayGroups(lines, ParseGroups(text, room), room)
    decreases |lines|
  {
    hide Index, Before, After, SaysGroup, ParseGroup, Count, Glued;
    if lines == [] {
      NoLines(text, '\n');
    } else {
      var rest := FirstLine(text, lines);
      LineGroup(lines[0]);
      if text == "" {
        CountNothing();
        assert lines[1..] == [] && Formed(lines, 2) == [] && ParseGroups(text, room) == [];
      } else if room > 0 {
        if Count(lines[0], ':') >= 2 {
          GroupsOfLines(lines[1..], rest, room - 1);
          SayMoreGroups(lines, ParseGroups(rest, room - 1), room - 1, ParseGroup(lines[0]).value);
        } else {
          GroupsOfLines(lines[1..], rest, room);
        }
      }
    }
  }

  // ----- Hashes

  /** A line gives a hash to a name: what stands before and behind its first colon. */
  ghost predicate SaysHash(line: string, name: string, hash: string) {
    line == name + ":" + hash && Count(name, ':') == 0
  }

  ghost predicate Silent(line: string, name: string) {
    forall hash :: !SaysHash(line, name, hash)
  }

  /** Line `k` is the last one that gives a hash to the name. */
  ghost predicate LastSays(lines: seq<string>, name: string, k: nat, hash: string) {
    k < |lines| && SaysHash(lines[k], name, hash) && forall j :: k < j < |lines| ==> Silent(lines[j], name)
  }

  ghost predicate FirstOf(us: seq<User>, i: nat) {
    i < |us| && forall j :: 0 <= j < i ==> us[j].name != us[i].name
  }

  /** The first user of a name has the hash of the last line that gives it one; all else is as before. */
  ghost predicate SayHashes(lines: seq<string>, before: seq<User>, after: seq<User>) {
    && |after| == |before|
    && forall i: nat :: i < |before| ==>
         && after[i] == before[i].(hash := after[i].hash)
         && (forall k: nat, hash :: LastSays(lines, before[i].name, k, hash) && FirstOf(before, i) ==> Kept(hash, after[i].hash, 127))
         && ((forall k :: 0 <= k < |lines| ==> Silent(lines[k], before[i].name)) || !FirstOf(before, i) ==> after[i].hash == before[i].hash)
  }

  /** One line: only the first user of its name changes. */
  lemma {:induction false} HashStored(us: seq<User>, name: string, hash: string)
    ensures forall i: nat :: i < |us| ==>
      SetHash(us, name, hash)[i] == if us[i].name == name && FirstOf(us, i) then us[i].(hash := Cut(hash, 127)) else us[i]
  {
    if us != [] && us[0].name != name {
      HashStored(us[1..], name, hash);
      forall i: nat | i < |us|
        ensures SetHash(us, name, hash)[i] == if us[i].name == name && FirstOf(us, i) then us[i].(hash := Cut(hash, 127)) else us[i]
      {
        if i > 0 {
          assert us[1..][i - 1] == us[i];
          if us[i].name == name { FirstLater(us, i); }
        }
      }
    }
  }

  lemma FirstLater(us: seq<User>, i: nat)
    requires 0 < i < |us| && us[0].name != us[i].name
    ensures FirstOf(us, i) <==> FirstOf(us[1..], i - 1)
  {
    assert forall j :: 1 <= j < |us| ==> us[1..][j - 1] == us[j];
  }

  lemma HashLine(line: string)
    ensures if Has(line, ':') then forall name, hash :: SaysHash(line, name, hash) <==> name == Before(line, ':') && hash == After(line, ':')
            else forall name :: Silent(line, name)
  {
    hide Index, Before, After, Count;
    SplitAt(line, ':');
    forall name, hash | SaysHash(line, name, hash)
      ensures Has(line, ':') && name == Before(line, ':') && hash == After(line, ':')
    {
      CountNone(name, ':');
      Splits(name, ':', hash);
    }
  }

  /** After the first line, what the others say. */
  lemma HashStep(lines: seq<string>, us: seq<User>, mid: seq<User>, after: seq<User>)
    requires lines != [] && SayHashes(lines[1..], mid, after) && |mid| == |us|
    requires if Has(lines[0], ':') then mid == SetHash(us, Before(lines[0], ':'), After(lines[0], ':')) else mid == us
    ensures SayHashes(lines, us, after)
  {
    hide Has, Before, After, SaysHash, Silent, SetHash, Kept;
    var rest := lines[1..];
    HashLine(lines[0]);
    var name, hash := Before(lines[0], ':'), After(lines[0], ':');
    HashStored(us, name, hash);
    assert forall i: nat :: i < |us| ==> mid[i].name == us[i].name;
    forall i: nat | i < |us|
      ensures after[i] == us[i].(hash := after[i].hash)
      ensures forall k: nat, h :: LastSays(lines, us[i].name, k, h) && FirstOf(us, i) ==> Kept(h, after[i].hash, 127)
      ensures (forall k :: 0 <= k < |lines| ==> Silent(lines[k], us[i].name)) || !FirstOf(us, i) ==> after[i].hash == us[i].hash
    {
      assert FirstOf(mid, i) <==> FirstOf(us, i);
      assert forall k :: 0 <= k < |rest| ==> rest[k] == lines[k + 1];
      HashOne(lines, us, mid, after, i);
    }
  }

  lemma HashOne(lines: seq<string>, us: seq<User>, mid: seq<User>, after: seq<User>, i: nat)
    requires lines != [] && SayHashes(lines[1..], mid, after) && |mid| == |us| && i < |us|
    requires FirstOf(mid, i) <==> FirstOf(us, i)
    requires var name, hash := Before(lines[0], ':'), After(lines[0], ':');
      mid[i] == if Has(lines[0], ':') && us[i].name == name && FirstOf(us, i) then us[i].(hash := Cut(hash, 127)) else us[i]
    ensures after[i] == us[i].(hash := after[i].hash)
    ensures forall k: nat, h :: LastSays(lines, us[i].name, k, h) && FirstOf(us, i) ==> Kept(h, after[i].hash, 127)
    ensures (forall k :: 0 <= k < |lines| ==> Silent(lines[k], us[i].name)) || !FirstOf(us, i) ==> after[i].hash == us[i].hash
  {
    hide Has, Before, After, SaysHash, Silent, Kept, FirstOf, Cut;
    var rest := lines[1..];
    HashLine(lines[0]);
    SpokenOrSilent(lines[0], us[i].name);
    var name, hash := Before(lines[0], ':'), After(lines[0], ':');
    CutIsKept(hash, 127);
    assert Has(lines[0], ':') ==> SaysHash(lines[0], name, hash);
    assert forall k :: 0 <= k < |rest| ==> rest[k] == lines[k + 1];
    forall k: nat, h | LastSays(lines, us[i].name, k, h) && FirstOf(us, i)
      ensures Kept(h, after[i].hash, 127)
    {
      if k > 0 { assert LastSays(rest, us[i].name, k - 1, h); }
    }
  }

  lemma SpokenOrSilent(line: string, name: string)
    ensures Silent(line, name) || exists hash :: SaysHash(line, name, hash)
    ensures forall hash :: SaysHash(line, name, hash) ==> !Silent(line, name)
  {
  }

  /** The loader gives exactly the hashes of the lines: a line without a colon counts for nothing. */
  lemma {:induction false} HashesOfLines(lines: seq<string>, text: string, us: seq<User>)
    requires LinesOf(text, lines)
    ensures SayHashes(lines, us, ParseHashes(us, text))
    decreases |lines|
  {
    hide Index, Has, Before, After, SaysHash, Count, Glued, SetHash, SayHashes;
    if lines == [] {
      NoLines(text, '\n');
      NothingSaid(us);
    } else {
      var rest := FirstLine(text, lines);
      var line := lines[0];
      var mid := if Has(line, ':') then SetHash(us, Before(line, ':'), After(line, ':')) else us;
      SizeKept(us, Before(line, ':'), After(line, ':'));
      HashesOfLines(lines[1..], rest, mid);
      NoColon();
      assert ParseHashes(us, text) == ParseHashes(mid, rest);
      HashStep(lines, us, mid, ParseHashes(mid, rest));
    }
  }

  lemma NoColon()
    ensures !Has("", ':')
  {
  }

  lemma SizeKept(us: seq<User>, name: string, hash: string)
    ensures |SetHash(us, name, hash)| == |us|
  {
  }

  lemma NothingSaid(us: seq<User>)
    ensures SayHashes([], us, us)
  {
  }

  // ----- Lines put in

  lemma FirstGlued(lines: seq<string>)
    requires lines != [] && Without(lines, '\n')
    ensures var text := Glued(lines, '\n');
      if text == "" then lines == [""] else Before(text, '\n') == lines[0] && After(text, '\n') == Glued(lines[1..], '\n')
  {
    hide Index;
    if |lines| == 1 {
      Whole(lines[0], '\n');
    } else {
      Splits(lines[0], '\n', Glued(lines[1..], '\n'));
    }
  }

  lemma WithoutParts(front: seq<string>, line: string, back: seq<string>)
    requires Without(front + back, '\n') && '\n' !in line
    ensures Without(front + [line] + back, '\n')
    ensures front != [] ==> Without(front[1..] + back, '\n') && (front + [line] + back)[1..] == front[1..] + [line] + back && (front + back)[1..] == front[1..] + back
  {
    var more, fewer := front + [line] + back, front + back;
    forall i | 0 <= i < |more|
      ensures '\n' !in more[i]
    {
      if i < |front| { assert more[i] == fewer[i]; }
      if i > |front| { assert more[i] == fewer[i - 1]; }
    }
    if front != [] {
      assert fewer[1..] == front[1..] + back;
      assert forall i :: 0 <= i < |fewer[1..]| ==> fewer[1..][i] == fewer[i + 1];
    }
  }

  /** The same for /etc/group, with two colons. */
  lemma {:induction false} GroupLineIgnored(front: seq<string>, line: string, back: seq<string>, room: nat)
    requires Without(front + back, '\n') && '\n' !in line && Count(line, ':') < 2
    ensures ParseGroups(Glued(front + [line] + back, '\n'), room) == ParseGroups(Glued(front + back, '\n'), room)
    decreases |front|
  {
    hide Count, Glued, Before, After, Index, ParseGroup;
    WithoutParts(front, line, back);
    FirstGlued(front + [line] + back);
    LineGroup(line);
    if front == [] {
      assert front + back == back && (front + [line] + back)[1..] == back;
      GluedNothing();
    } else {
      FirstGlued(front + back);
      LineGroup(front[0]);
      CountNothing();
      GluedNothing();
      GroupLineIgnored(front[1..], line, back, room);
      if room > 0 { GroupLineIgnored(front[1..], line, back, room - 1); }
    }
  }

  lemma GluedNothing()
    ensures Glued([], '\n') == "" && Glued([""], '\n') == ""
  {
  }

  /** The same for /etc/shadow, with one colon. */
  lemma {:induction false} HashLineIgnored(front: seq<string>, line: string, back: seq<string>, us: seq<User>)
    requires Without(front + back, '\n') && '\n' !in line && Count(line, ':') < 1
    ensures ParseHashes(us, Glued(front + [line] + back, '\n')) == ParseHashes(us, Glued(front + back, '\n'))
    decreases |front|
  {
    hide Count, Glued, Before, After, Index, Has, SetHash;
    WithoutParts(front, line, back);
    FirstGlued(front + [line] + back);
    SplitAt(line, ':');
    if front == [] {
      assert front + back == back && (front + [line] + back)[1..] == back;
      GluedNothing();
    } else {
      FirstGlued(front + back);
      SplitAt(front[0], ':');
      CountNothing();
      GluedNothing();
      var mid := if Has(front[0], ':') then SetHash(us, Before(front[0], ':'), After(front[0], ':')) else us;
      HashLineIgnored(front[1..], line, back, mid);
    }
  }

  // ----- Whole files

  lemma FileText(data: string, lines: seq<string>)
    ensures FileLines(data, lines) <==> LinesOf(Text(data), lines)
  {
    hide Index, LinesOf;
    if FileLines(data, lines) {
      var text :| '\0' !in text && (data == text || (text + "\0" <= data)) && LinesOf(text, lines);
      if data == text { Whole(text, '\0'); } else {
        assert data == text + ['\0'] + data[|text| + 1..];
        Splits(text, '\0', data[|text| + 1..]);
      }
    } else if LinesOf(Text(data), lines) {
      TextIs(data);
    }
  }

  lemma TextIs(data: string)
    ensures '\0' !in Text(data) && (data == Text(data) || Text(data) + "\0" <= data)
  {
    var k := Index(data, '\0');
    if k < |data| { assert data[..k] + "\0" == data[..k + 1]; } else { assert data[..k] == data; }
  }

  /** Every text has lines. */
  lemma {:induction false} SomeLines(text: string) returns (lines: seq<string>)
    ensures LinesOf(text, lines)
    decreases |text|
  {
    hide Index;
    var k := Index(text, '\n');
    if k == |text| {
      lines := [text];
      assert text[..k] == text;
    } else {
      var rest := SomeLines(text[k + 1..]);
      lines := [text[..k]] + rest;
      assert text == text[..k] + ['\n'] + text[k + 1..];
      assert lines[1..] == rest;
    }
  }

  lemma FileHasLines(data: string) returns (lines: seq<string>)
    ensures FileLines(data, lines)
  {
    hide LinesOf;
    lines := SomeLines(Text(data));
    TextIs(data);
  }

  /** What loading /etc/passwd and /etc/shadow with this content has to come to. */
  ghost predicate UsersAsSaid(passwd: string, shadow: string, us: seq<User>) {
    exists plain :: PlainUsers(passwd, plain) && Hashed(shadow, plain, us)
  }

  ghost predicate PlainUsers(passwd: string, us: seq<User>) {
    forall lines :: FileLines(passwd, lines) ==> SayUsers(lines, us, 64)
  }

  ghost predicate Hashed(shadow: string, before: seq<User>, after: seq<User>) {
    forall lines :: FileLines(shadow, lines) ==> SayHashes(lines, before, after)
  }

  ghost predicate GroupsAsSaid(group: string, gs: seq<Group>) {
    forall lines :: FileLines(group, lines) ==> SayGroups(lines, gs, 64)
  }

  lemma PasswdSaid(data: string)
    ensures PlainUsers(data, ParseUsers(Text(data), 64))
  {
    hide SayUsers, LinesOf, ParseUsers, FileLines, Text;
    forall lines | FileLines(data, lines)
      ensures SayUsers(lines, ParseUsers(Text(data), 64), 64)
    {
      FileText(data, lines);
      UsersOfLines(lines, Text(data), 64);
    }
  }

  lemma ShadowSaid(data: string, us: seq<User>)
    ensures Hashed(data, us, ParseHashes(us, Text(data)))
  {
    hide SayHashes, LinesOf, ParseHashes, FileLines, Text;
    forall lines | FileLines(data, lines)
      ensures SayHashes(lines, us, ParseHashes(us, Text(data)))
    {
      FileText(data, lines);
      HashesOfLines(lines, Text(data), us);
    }
  }

  lemma GroupSaid(data: string)
    ensures GroupsAsSaid(data, ParseGroups(Text(data), 64))
  {
    hide SayGroups, LinesOf, ParseGroups, FileLines, Text;
    forall lines | FileLines(data, lines)
      ensures SayGroups(lines, ParseGroups(Text(data), 64), 64)
    {
      FileText(data, lines);
      GroupsOfLines(lines, Text(data), 64);
    }
  }
}

/** Saving and loading the user database of kernel/src/sys/user.c. Files are a map from paths to
    contents, and writing one succeeds. */
module UserDb {
  import opened UserText
  import opened UserLines

  const PASSWD := "/etc/passwd"
  const SHADOW := "/etc/shadow"
  const GROUP := "/etc/group"
  const BUFFER: nat := 4096

  function File(files: map<string, string>, path: string): string {
    if path in files then Text(files[path]) else ""
  }

  /** The bytes of a file, none if it is not there. */
  function Data(files: map<string, string>, path: string): string {
    if path in files then files[path] else ""
  }

  function LoadedUsers(files: map<string, string>): seq<User> {
    ParseHashes(ParseUsers(File(files, PASSWD), MAX_ENTRIES), File(files, SHADOW))
  }

  function LoadedGroups(files: map<string, string>): seq<Group> {
    ParseGroups(File(files, GROUP), MAX_ENTRIES)
  }

  function Saved(files: map<string, string>, us: seq<User>, gs: seq<Group>): map<string, string> {
    files[PASSWD := Limited(PrintUsers(us))][SHADOW := Limited(PrintHashes(us))][GROUP := Limited(PrintGroups(gs))]
  }

  // ----- Numbers and separators

  function Backwards(s: string): string {
    if s == "" then "" else [s[|s| - 1]] + Backwards(s[..|s| - 1])
  }

  function Power10(n: nat): nat {
    if n == 0 then 1 else 10 * Power10(n - 1)
  }

  /** `utoa` */
  method Utoa(val: nat) returns (out: string)
    requires val < WORD32
    ensures out == Decimal(val)
  {
    hide Decimal, Power10, Backwards;
    TenDigits(val);
    if val == 0 { return "0"; }
    var tmp: string, v: nat := "", val;
    while v > 0 && |tmp| < 15
      invariant |tmp| <= 10 && v < Power10(10 - |tmp|)
      invariant Decimal(val) == (if v > 0 then Decimal(v) else "") + Backwards(tmp)
      decreases v
    {
      DigitOff(v, tmp);
      tmp := tmp + [Digit(v % 10)];
      v := v / 10;
    }
    out := Reverse(tmp);
  }

  /** The loop of `utoa` that turns the digits round. */
  method Reverse(tmp: string) returns (out: string)
    ensures out == Backwards(tmp)
  {
    out := "";
    assert tmp[..|tmp|] == tmp && out + Backwards(tmp) == Backwards(tmp);
    for i := 0 to |tmp|
      invariant out + Backwards(tmp[..|tmp| - i]) == Backwards(tmp)
    {
      var left := tmp[..|tmp| - i];
      assert left[..|left| - 1] == tmp[..|tmp| - i - 1];
      out := out + [tmp[|tmp| - 1 - i]];
    }
  }

  lemma TenDigits(val: nat)
    requires val < WORD32
    ensures val < Power10(10) && Decimal(val) + Backwards("") == Decimal(val) && (val == 0 ==> Decimal(val) == "0")
    ensures forall s: string :: "" + s == s
  {
    assert Power10(10) == 10000000000;
  }

  lemma DigitOff(v: nat, tmp: string)
    requires |tmp| <= 10 && 0 < v < Power10(10 - |tmp|)
    ensures |tmp| < 10 && v / 10 < Power10(9 - |tmp|)
    ensures Decimal(v) + Backwards(tmp) == (if v / 10 > 0 then Decimal(v / 10) else "") + Backwards(tmp + [Digit(v % 10)])
  {
    assert (tmp + [Digit(v % 10)])[..|tmp|] == tmp;
  }

  /** `strtol` with decimal digits. */
  method StrTol(s: string) returns (v: nat)
    ensures v == Digits(s)
  {
    v := 0;
    for i := 0 to |s|
      invariant v == Digits(s[..i])
    {
      assert s[..i + 1][..i] == s[..i];
      if '0' <= s[i] <= '9' { v := (v * 10 + (s[i] - '0') as nat) % WORD64; }
    }
    assert s[..|s|] == s;
  }

  /** `strchr`, which gives the length where the original gives a null pointer. */
  method StrChr(s: string, c: char) returns (k: nat)
    ensures k == Index(s, c)
  {
    k := 0;
    while k < |s| && s[k] != c
      invariant k <= |s| && Index(s, c) == k + Index(s[k..], c)
    {
      k := k + 1;
    }
  }

  /** Splits at the first separator, as the parsers do by writing a terminator over it. */
  method Split(s: string, c: char) returns (found: bool, before: string, after: string)
    ensures found == Has(s, c) && before == Before(s, c) && after == After(s, c)
  {
    var k := StrChr(s, c);
    return k < |s|, s[..k], if k < |s| then s[k + 1..] else "";
  }

  // ----- Printing

  /** Copies text to the buffer up to the limit. */
  method Put(buf: array<char>, pos: nat, s: string) returns (end: nat)
    requires buf.Length == BUFFER && pos <= LIMIT
    modifies buf
    ensures end <= LIMIT && buf[..end] == Limited(old(buf[..pos]) + s)
  {
    end := pos;
    var i := 0;
    while i < |s| && end < LIMIT
      invariant i <= |s| && pos <= end == pos + i <= LIMIT
      invariant buf[..end] == old(buf[..pos]) + s[..i]
    {
      buf[end] := s[i];
      end := end + 1;
      i := i + 1;
    }
    assert i == |s| ==> s[..i] == s;
    assert i < |s| ==> (old(buf[..pos]) + s)[..LIMIT] == old(buf[..pos]) + s[..i];
  }

  /** A field and the separator behind it. */
  method Field(buf: array<char>, pos: nat, s: string, sep: char, ghost done: string) returns (end: nat, ghost more: string)
    requires buf.Length == BUFFER && pos <= LIMIT && buf[..pos] == Limited(done)
    modifies buf
    ensures end <= LIMIT && buf[..end] == Limited(more) && more == done + (s + [sep])
  {
    hide Limited;
    end := Put(buf, pos, s);
    LimitedTwice(done, s);
    end := Put(buf, end, [sep]);
    LimitedTwice(done + s, [sep]);
    more := done + (s + [sep]);
    assert done + s + [sep] == more;
  }

  lemma LimitedNothing()
    ensures Limited("") == ""
  {
  }

  // ----- The database

  class Database {
    var users: seq<User>
    var groups: seq<Group>
    var files: map<string, string>

    predicate Valid()
      reads this
    {
      && |users| <= MAX_ENTRIES && |groups| <= MAX_ENTRIES
      && (forall i :: 0 <= i < |users| ==> users[i].uid < WORD32 && users[i].gid < WORD32)
      && (forall i :: 0 <= i < |groups| ==> GroupBounds(groups[i]))
    }

    /** `sys_user_save`: each file gets its text, cut at the limit. */
    method Save()
      requires Valid()
      modifies this`files
      ensures files == Saved(old(files), users, groups)
    {
      var text := PasswdText();
      files := files[PASSWD := text];
      text := ShadowText();
      files := files[SHADOW := text];
      text := GroupText();
      files := files[GROUP := text];
    }

    method PasswdText() returns (text: string)
      requires Valid()
      ensures text == Limited(PrintUsers(users))
    {
      hide Limited, UserLine, Decimal;
      var buf := new char[BUFFER];
      var pos: nat := 0;
      ghost var done := "";
      LimitedNothing();
      for i := 0 to |users|
        invariant pos <= LIMIT && buf[..pos] == Limited(done) && done + PrintUsers(users[i..]) == PrintUsers(users)
      {
        var u := users[i];
        var uid := Utoa(u.uid);
        var gid := Utoa(u.gid);
        ghost var before := done;
        pos, done := Field(buf, pos, u.name, ':', done);
        pos, done := Field(buf, pos, uid, ':', done);
        pos, done := Field(buf, pos, gid, ':', done);
        pos, done := Field(buf, pos, u.home, ':', done);
        pos, done := Field(buf, pos, u.shell, '\n', done);
        UserDone(before, users[i..], uid, gid);
        assert users[i..][1..] == users[i + 1..];
      }
      assert done + "" == done;
      text := buf[..pos];
    }

    method ShadowText() returns (text: string)
      requires Valid()
      ensures text == Limited(PrintHashes(users))
    {
      hide Limited;
      var buf := new char[BUFFER];
      var pos: nat := 0;
      ghost var done := "";
      LimitedNothing();
      for i := 0 to |users|
        invariant pos <= LIMIT && buf[..pos] == Limited(done) && done + PrintHashes(users[i..]) == PrintHashes(users)
      {
        ghost var before := done;
        pos, done := Field(buf, pos, users[i].name, ':', done);
        pos, done := Field(buf, pos, users[i].hash, '\n', done);
        assert users[i..][1..] == users[i + 1..];
        HashDone(before, users[i..]);
      }
      assert done + "" == done;
      text := buf[..pos];
    }

    method GroupText() returns (text: string)
      requires Valid()
      ensures text == Limited(PrintGroups(groups))
    {
      hide Limited, GroupLine, Decimal;
      var buf := new char[BUFFER];
      var pos: nat := 0;
      ghost var done := "";
      LimitedNothing();
      for i := 0 to |groups|
        invariant pos <= LIMIT && buf[..pos] == Limited(done) && done + PrintGroups(groups[i..]) == PrintGroups(groups)
      {
        var g := groups[i];
        var gid := Utoa(g.gid);
        ghost var before := done;
        pos, done := Field(buf, pos, g.name, ':', done);
        pos, done := Field(buf, pos, gid, ':', done);
        pos, done := PutMembers(buf, pos, g.members, done);
        pos := Put(buf, pos, "\n");
        LimitedTwice(done, "\n");
        done := done + "\n";
        GroupDone(before, groups[i..], gid);
        assert groups[i..][1..] == groups[i + 1..];
      }
      assert done + "" == done;
      text := buf[..pos];
    }

    // ----- Loading

    /** `sys_user_load`: the tables are cleared and filled from the files that are there and not
        empty; it fails if there is none. */
    method Load() returns (code: int)
      modifies this`users, this`groups
      ensures users == LoadedUsers(files) && groups == LoadedGroups(files) && Valid()
      ensures UsersAsSaid(Data(files, PASSWD), Data(files, SHADOW), users) && GroupsAsSaid(Data(files, GROUP), groups)
      ensures code == 0 <==> exists path :: path in {PASSWD, SHADOW, GROUP} && path in files && files[path] != ""
      ensures code == 0 || code == -1
    {
      hide ParseUsers, ParseHashes, ParseGroups, Index, PlainUsers, Hashed, GroupsAsSaid;
      users, groups := [], [];
      NoText();
      PasswdSaid(Data(files, PASSWD));
      ShadowSaid(Data(files, SHADOW), ParseUsers(File(files, PASSWD), MAX_ENTRIES));
      GroupSaid(Data(files, GROUP));
      var passwd, shadow, group := false, false, false;
      if PASSWD in files && files[PASSWD] != "" { passwd := LoadPasswd(); }
      if SHADOW in files && files[SHADOW] != "" { shadow := LoadShadow(); }
      if GROUP in files && files[GROUP] != "" { group := LoadGroup(); }
      WordsRead(File(files, PASSWD), File(files, SHADOW), File(files, GROUP));
      code := if passwd || shadow || group then 0 else -1;
    }

    /** `load_passwd` of a file that is there. */
    method LoadPasswd() returns (ok: bool)
      requires PASSWD in files && users == []
      modifies this`users
      ensures ok && users == ParseUsers(File(files, PASSWD), MAX_ENTRIES)
      ensures PlainUsers(files[PASSWD], users)
    {
      hide Has, ParseUser, ParseUsers, Before, After, PlainUsers, Hashed, GroupsAsSaid;
      PasswdSaid(files[PASSWD]);
      var nul, line, behind := Split(files[PASSWD], '\0');
      while line != "" && |users| < MAX_ENTRIES
        invariant |users| <= MAX_ENTRIES && ParseUsers(File(files, PASSWD), MAX_ENTRIES) == users + ParseUsers(line, MAX_ENTRIES - |users|)
        decreases |line|
      {
        UsersNext(line, MAX_ENTRIES - |users|);
        var nl, text, rest := Split(line, '\n');
        line := rest;
        var entry := ReadUser(text);
        if entry.Some? { users := users + [entry.value]; }
      }
      UsersNext(line, MAX_ENTRIES - |users|);
      ok := true;
    }

    /** `load_shadow` of a file that is there. */
    method LoadShadow() returns (ok: bool)
      requires SHADOW in files
      modifies this`users
      ensures ok && users == ParseHashes(old(users), File(files, SHADOW))
      ensures Hashed(files[SHADOW], old(users), users)
    {
      hide Index, SetHash, PlainUsers, Hashed, GroupsAsSaid;
      ShadowSaid(files[SHADOW], users);
      var nul, line, behind := Split(files[SHADOW], '\0');
      while line != ""
        invariant ParseHashes(old(users), File(files, SHADOW)) == ParseHashes(users, line)
        decreases |line|
      {
        var nl, text, rest := Split(line, '\n');
        line := rest;
        var found, name, hash := Split(text, ':');
        if found { StoreHash(name, hash); }
      }
      ok := true;
    }

    method StoreHash(name: string, hash: string)
      modifies this`users
      ensures users == SetHash(old(users), name, hash)
    {
      assert users[0..] == users;
      for i := 0 to |users|
        invariant users == old(users) && SetHash(users, name, hash) == users[..i] + SetHash(users[i..], name, hash)
      {
        if users[i].name == name {
          users := users[i := users[i].(hash := Cut(hash, MAX_HASH))];
          return;
        }
        assert users[..i + 1] == users[..i] + [users[i]];
      }
    }

    /** `load_group` of a file that is there. */
    method LoadGroup() returns (ok: bool)
      requires GROUP in files && groups == []
      modifies this`groups
      ensures ok && groups == ParseGroups(File(files, GROUP), MAX_ENTRIES)
      ensures GroupsAsSaid(files[GROUP], groups)
    {
      hide Has, ParseGroup, ParseGroups, Before, After, PlainUsers, Hashed, GroupsAsSaid;
      GroupSaid(files[GROUP]);
      var nul, line, behind := Split(files[GROUP], '\0');
      while line != "" && |groups| < MAX_ENTRIES
        invariant |groups| <= MAX_ENTRIES && ParseGroups(File(files, GROUP), MAX_ENTRIES) == groups + ParseGroups(line, MAX_ENTRIES - |groups|)
        decreases |line|
      {
        GroupsNext(line, MAX_ENTRIES - |groups|);
        var nl, text, rest := Split(line, '\n');
        line := rest;
        var entry := ReadGroup(text);
        if entry.Some? { groups := groups + [entry.value]; }
      }
      GroupsNext(line, MAX_ENTRIES - |groups|);
      ok := true;
    }
  }

  /** The fields of a line of `load_passwd`; a line without four separators is skipped. */
  method ReadUser(line: string) returns (entry: Option<User>)
    ensures entry == ParseUser(line)
  {
    hide Index, Digits, Cut, Has, Before, After;
    var f1, name, r1 := Split(line, ':');
    if !f1 { return None; }
    var f2, uidText, r2 := Split(r1, ':');
    if !f2 { return None; }
    var f3, gidText, r3 := Split(r2, ':');
    if !f3 { return None; }
    var f4, home, shell := Split(r3, ':');
    if !f4 { return None; }
    var uid := StrTol(uidText);
    var gid := StrTol(gidText);
    return Some(User(Cut(name, MAX_FIELD), uid % WORD32, gid % WORD32, Cut(home, MAX_FIELD), Cut(shell, MAX_FIELD), ""));
  }

  /** The fields of a line of `load_group`. */
  method ReadGroup(line: string) returns (entry: Option<Group>)
    ensures entry == ParseGroup(line)
  {
    hide Index, Digits, Cut, Has, Before, After, ParseMembers;
    var f1, name, r1 := Split(line, ':');
    if !f1 { return None; }
    var f2, gidText, list := Split(r1, ':');
    if !f2 { return None; }
    var gid := StrTol(gidText);
    var members := ReadMembers(list);
    return Some(Group(Cut(name, MAX_FIELD), gid % WORD32, members));
  }

  /** The member list of `load_group`. */
  method ReadMembers(list: string) returns (ms: seq<nat>)
    ensures ms == ParseMembers(list, MAX_MEMBERS)
  {
    hide Index, Digits, Before, After, ParseMembers;
    ms := [];
    var m := list;
    while m != "" && |ms| < MAX_MEMBERS
      invariant |ms| <= MAX_MEMBERS && ParseMembers(list, MAX_MEMBERS) == ms + ParseMembers(m, MAX_MEMBERS - |ms|)
      decreases |m|
    {
      var comma, text, rest := Split(m, ',');
      MembersRead(m, MAX_MEMBERS - |ms|);
      var v := StrTol(text);
      ms := ms + [v % WORD32];
      m := rest;
    }
    NoMembers(m, MAX_MEMBERS - |ms|);
  }

  lemma MembersRead(m: string, room: nat)
    requires m != "" && room > 0
    ensures ParseMembers(m, room) == [Number(Before(m, ','))] + ParseMembers(After(m, ','), room - 1) && |After(m, ',')| < |m|
  {
  }

  lemma NoMembers(m: string, room: nat)
    requires m == "" || room == 0
    ensures ParseMembers(m, room) == []
  {
  }

  /** One round of the loops over lines. */
  lemma UsersNext(line: string, room: nat)
    ensures line != "" ==> |After(line, '\n')| < |line|
    ensures ParseUsers(line, room) ==
      if line == "" || room == 0 then []
      else match ParseUser(Before(line, '\n'))
        case Some(u) => [u] + ParseUsers(After(line, '\n'), room - 1)
        case None => ParseUsers(After(line, '\n'), room)
  {
  }

  lemma GroupsNext(line: string, room: nat)
    ensures line != "" ==> |After(line, '\n')| < |line|
    ensures ParseGroups(line, room) ==
      if line == "" || room == 0 then []
      else match ParseGroup(Before(line, '\n'))
        case Some(g) => [g] + ParseGroups(After(line, '\n'), room - 1)
        case None => ParseGroups(After(line, '\n'), room)
  {
  }

  lemma NoText()
    ensures Text("") == "" && ParseUsers("", MAX_ENTRIES) == [] && ParseGroups("", MAX_ENTRIES) == [] && forall us :: ParseHashes(us, "") == us
  {
  }

  // ----- What is read is within its bounds

  predicate UserBounds(u: User) {
    u.uid < WORD32 && u.gid < WORD32 && u.hash == ""
  }

  predicate UsersBound(us: seq<User>) {
    forall i :: 0 <= i < |us| ==> UserBounds(us[i])
  }

  lemma UserInBounds(line: string)
    ensures ParseUser(line).Some? ==> UserBounds(ParseUser(line).value)
  {
  }

  lemma {:induction false} UserWords(text: string, room: nat)
    ensures UsersBound(ParseUsers(text, room))
    decreases |text|
  {
    hide ParseUser, Before, After, UserBounds;
    if text != "" && room > 0 {
      var rest := After(text, '\n');
      UserInBounds(Before(text, '\n'));
      match ParseUser(Before(text, '\n'))
      case Some(e) =>
        UserWords(rest, room - 1);
        assert ParseUsers(text, room) == [e] + ParseUsers(rest, room - 1);
      case None =>
        UserWords(rest, room);
        assert ParseUsers(text, room) == ParseUsers(rest, room);
    }
  }

  predicate GroupBounds(g: Group) {
    g.gid < WORD32 && |g.members| <= MAX_MEMBERS && Words(g.members)
  }

  predicate Words(ms: seq<nat>) {
    forall j :: 0 <= j < |ms| ==> ms[j] < WORD32
  }

  lemma {:induction false} MemberWords(s: string, room: nat)
    ensures Words(ParseMembers(s, room))
    decreases |s|
  {
    hide Before, After, Number;
    if s != "" && room > 0 {
      MemberWords(After(s, ','), room - 1);
      assert ParseMembers(s, room) == [Number(Before(s, ','))] + ParseMembers(After(s, ','), room - 1);
    }
  }

  lemma GroupInBounds(line: string)
    ensures ParseGroup(line).Some? ==> GroupBounds(ParseGroup(line).value)
  {
    hide Before, After;
    MemberWords(After(After(line, ':'), ':'), MAX_MEMBERS);
  }

  lemma {:induction false} GroupWords(text: string, room: nat)
    ensures var gs := ParseGroups(text, room); forall i :: 0 <= i < |gs| ==> GroupBounds(gs[i])
    decreases |text|
  {
    hide ParseGroup, Before, After, GroupBounds;
    if text != "" && room > 0 {
      var rest := After(text, '\n');
      GroupInBounds(Before(text, '\n'));
      match ParseGroup(Before(text, '\n'))
      case Some(e) =>
        GroupWords(rest, room - 1);
        assert ParseGroups(text, room) == [e] + ParseGroups(rest, room - 1);
      case None =>
        GroupWords(rest, room);
        assert ParseGroups(text, room) == ParseGroups(rest, room);
    }
  }

  predicate SameButHash(a: User, b: User) {
    a.(hash := "") == b.(hash := "")
  }

  lemma {:induction false} SetHashKeeps(us: seq<User>, name: string, hash: string)
    ensures forall i :: 0 <= i < |us| ==> SameButHash(SetHash(us, name, hash)[i], us[i])
  {
    if us != [] && us[0].name != name { SetHashKeeps(us[1..], name, hash); }
  }

  /** /etc/shadow changes nothing but hashes. */
  lemma {:induction false} HashesKeep(us: seq<User>, text: string)
    ensures |ParseHashes(us, text)| == |us| && forall i :: 0 <= i < |us| ==> SameButHash(ParseHashes(us, text)[i], us[i])
    decreases |text|
  {
    if text != "" {
      var line := Before(text, '\n');
      SetHashKeeps(us, Before(line, ':'), After(line, ':'));
      HashesKeep(if Has(line, ':') then SetHash(us, Before(line, ':'), After(line, ':')) else us, After(text, '\n'));
    }
  }

  lemma WordsRead(passwd: string, shadow: string, group: string)
    ensures var us := ParseHashes(ParseUsers(passwd, MAX_ENTRIES), shadow); |us| <= MAX_ENTRIES && forall i :: 0 <= i < |us| ==> us[i].uid < WORD32 && us[i].gid < WORD32
    ensures var gs := ParseGroups(group, MAX_ENTRIES); forall i :: 0 <= i < |gs| ==> GroupBounds(gs[i])
  {
    hide ParseUsers, ParseHashes, ParseGroups;
    UserWords(passwd, MAX_ENTRIES);
    HashesKeep(ParseUsers(passwd, MAX_ENTRIES), shadow);
    var us := ParseHashes(ParseUsers(passwd, MAX_ENTRIES), shadow);
    assert forall i :: 0 <= i < |us| ==> SameButHash(us[i], ParseUsers(passwd, MAX_ENTRIES)[i]);
    GroupWords(group, MAX_ENTRIES);
  }

  // ----- Loading what was saved

  /** What fits: of the limit, /etc/passwd and /etc/group may exceed it by their last line break, and
      /etc/shadow matters up to the last hash that is not empty. */
  predicate Fits(us: seq<User>, gs: seq<Group>) {
    |PrintUsers(us)| <= LIMIT + 1 && HashPart(us) <= LIMIT && |PrintGroups(gs)| <= LIMIT + 1
  }

  /** After a save a load gives the same database exactly when the files fit. */
  lemma SavedLoads(files: map<string, string>, us: seq<User>, gs: seq<Group>)
    requires |us| <= MAX_ENTRIES && |gs| <= MAX_ENTRIES && DistinctNames(us)
    requires (forall i :: 0 <= i < |us| ==> GoodUser(us[i])) && forall i :: 0 <= i < |gs| ==> GoodGroup(gs[i])
    ensures LoadedUsers(Saved(files, us, gs)) == us && LoadedGroups(Saved(files, us, gs)) == gs <==> Fits(us, gs)
  {
    hide ParseUsers, ParseHashes, ParseGroups, PrintUsers, PrintHashes, PrintGroups, GoodUser, GoodGroup, DistinctNames, HashPart, Text;
    var m1, m2, m3 := Size(PrintUsers(us)), Size(PrintHashes(us)), Size(PrintGroups(gs));
    UsersParse(us, MAX_ENTRIES);
    GroupsParse(gs, MAX_ENTRIES);
    HashesPlain(us);
    TextOf(PrintUsers(us));
    TextOf(PrintHashes(us));
    TextOf(PrintGroups(gs));
    CutUsers(us, MAX_ENTRIES, m1);
    CutGroups(gs, MAX_ENTRIES, m3);
    var read, shadow := ParseUsers(PrintUsers(us)[..m1], MAX_ENTRIES), PrintHashes(us)[..m2];
    assert us[0..] == us;
    if read == NoHashes(us) {
      CutHashes(us, read, 0, m2);
    } else {
      NotTheUsers(us, PrintUsers(us)[..m1], shadow);
    }
  }

  // ----- A database that does not survive

  const LONG := "/home/with/a/name/of/31/letters"

  function Person(k: nat): User {
    User(Decimal(k), 0, 0, LONG, LONG, "")
  }

  function People(n: nat): (us: seq<User>)
    ensures |us| == n && forall k :: 0 <= k < n ==> us[k] == Person(k)
  {
    if n == 0 then [] else People(n - 1) + [Person(n - 1)]
  }

  /** Sixty-four users with long directories: the database is full, every field is in order, and it
      does not come back after a save. */
  lemma FullHouse(files: map<string, string>)
    ensures var us := People(MAX_ENTRIES);
      && DistinctNames(us) && (forall i :: 0 <= i < |us| ==> GoodUser(us[i]))
      && !(LoadedUsers(Saved(files, us, [])) == us && LoadedGroups(Saved(files, us, [])) == [])
  {
    hide GoodUser, PrintUsers, HashPart, PrintGroups, LoadedUsers, LoadedGroups, Saved;
    var us := People(MAX_ENTRIES);
    forall i | 0 <= i < |us|
      ensures GoodUser(us[i]) && |UserLine(us[i])| >= 69
    {
      GoodPerson(i);
    }
    forall i, j | 0 <= i < j < |us|
      ensures us[i].name != us[j].name
    {
      NumberOfDecimal(i);
      NumberOfDecimal(j);
    }
    LongText(us);
    SavedLoads(files, us, []);
  }

  lemma GoodPerson(k: nat)
    requires k < MAX_ENTRIES
    ensures GoodUser(Person(k)) && |UserLine(Person(k))| >= 69
  {
    hide Decimal, Plain, UserLine;
    DecimalPlain(k);
    ShortDecimal(k);
    LongName();
    LineSize(Person(k));
    assert '\n' !in LONG && '\0' !in LONG by { PlainMeans(LONG); }
  }

  lemma ShortDecimal(k: nat)
    requires k < 100
    ensures |Decimal(k)| <= 2
  {
    if k >= 10 { assert |Decimal(k / 10)| == 1; }
  }

  lemma LongName()
    ensures Plain(LONG) && |LONG| == 31
  {
  }

  lemma PlainMeans(s: string)
    requires Plain(s)
    ensures '\n' !in s && '\0' !in s
  {
  }

  lemma LineSize(u: User)
    ensures |UserLine(u)| >= 6 + |u.home| + |u.shell| + |u.name|
  {
    hide Decimal;
    assert |Decimal(u.uid)| >= 1 && |Decimal(u.gid)| >= 1 by { SomeDigits(u.uid); SomeDigits(u.gid); }
  }

  lemma SomeDigits(n: nat)
    ensures |Decimal(n)| >= 1
  {
  }

  lemma {:induction false} LongText(us: seq<User>)
    requires forall i :: 0 <= i < |us| ==> |UserLine(us[i])| >= 69
    ensures |PrintUsers(us)| >= 70 * |us|
  {
    hide UserLine;
    if us != [] { LongText(us[1..]); }
  }

  function Size(s: string): nat {
    if |s| <= LIMIT then |s| else LIMIT
  }

  lemma TextOf(s: string)
    requires '\0' !in s
    ensures Text(Limited(s)) == s[..Size(s)]
  {
    assert s[..|s|] == s;
    Whole(Limited(s), '\0');
  }

  lemma {:induction false} HashesPlain(us: seq<User>)
    requires forall i :: 0 <= i < |us| ==> GoodUser(us[i])
    ensures '\0' !in PrintHashes(us)
  {
    if us != [] {
      HashLinePlain(us[0]);
      HashesPlain(us[1..]);
    }
  }

  /** Users read wrongly are not put right by /etc/shadow. */
  lemma NotTheUsers(us: seq<User>, passwd: string, shadow: string)
    ensures ParseHashes(ParseUsers(passwd, MAX_ENTRIES), shadow) == us ==> ParseUsers(passwd, MAX_ENTRIES) == NoHashes(us)
  {
    hide ParseUsers, ParseHashes;
    var read := ParseUsers(passwd, MAX_ENTRIES);
    HashesKeep(read, shadow);
    UserWords(passwd, MAX_ENTRIES);
    if ParseHashes(read, shadow) == us {
      forall i | 0 <= i < |us|
        ensures read[i] == NoHashes(us)[i]
      {
        assert SameButHash(ParseHashes(read, shadow)[i], read[i]);
        assert UserBounds(read[i]);
      }
    }
  }

  lemma UserDone(done: string, us: seq<User>, uid: string, gid: string)
    requires us != [] && uid == Decimal(us[0].uid) && gid == Decimal(us[0].gid)
    ensures var u := us[0];
      done + (u.name + ":") + (uid + ":") + (gid + ":") + (u.home + ":") + (u.shell + "\n") + PrintUsers(us[1..]) == done + PrintUsers(us)
  {
    hide Decimal;
  }

  lemma HashDone(done: string, us: seq<User>)
    requires us != []
    ensures done + (us[0].name + ":") + (us[0].hash + "\n") + PrintHashes(us[1..]) == done + PrintHashes(us)
  {
  }

  lemma GroupDone(done: string, gs: seq<Group>, gid: string)
    requires gs != [] && gid == Decimal(gs[0].gid)
    ensures done + (gs[0].name + ":") + (gid + ":") + PrintMembers(gs[0].members) + "\n" + PrintGroups(gs[1..]) == done + PrintGroups(gs)
  {
    hide Decimal, PrintMembers;
  }

  /** The member list of a group. */
  method PutMembers(buf: array<char>, pos: nat, ms: seq<nat>, ghost done: string) returns (end: nat, ghost more: string)
    requires buf.Length == BUFFER && pos <= LIMIT && buf[..pos] == Limited(done) && forall i :: 0 <= i < |ms| ==> ms[i] < WORD32
    modifies buf
    ensures end <= LIMIT && buf[..end] == Limited(more) && more == done + PrintMembers(ms)
  {
    hide Limited, Decimal;
    end, more := pos, done;
    assert ms == [] ==> more == done + PrintMembers(ms);
    for j := 0 to |ms|
      invariant end <= LIMIT && buf[..end] == Limited(more)
      invariant more + Rest(ms, j) == done + PrintMembers(ms)
    {
      ghost var before := more;
      if j > 0 {
        end := Put(buf, end, ",");
        LimitedTwice(more, ",");
        more := more + ",";
      }
      var uid := Utoa(ms[j]);
      end := Put(buf, end, uid);
      LimitedTwice(more, uid);
      more := more + uid;
      RestStep(before, ms, j);
    }
    assert more + "" == more;
  }

  /** What is still to be printed before member `j`. */
  function Rest(ms: seq<nat>, j: nat): string
    requires j <= |ms|
  {
    if j == |ms| then "" else (if j > 0 then "," else "") + PrintMembers(ms[j..])
  }

  lemma RestStep(done: string, ms: seq<nat>, j: nat)
    requires j < |ms|
    ensures (if j > 0 then done + "," else done) + Decimal(ms[j]) + Rest(ms, j + 1) == done + Rest(ms, j)
  {
    hide Decimal, PrintMembers;
    var d, r := Decimal(ms[j]), Rest(ms, j + 1);
    MembersStep(ms, j);
    if j > 0 {
      Regroup(done, ",", d, r);
    } else {
      Regroup(done, "", d, r);
      assert done + "" == done && "" + (d + r) == d + r;
    }
  }

  lemma Regroup(a: string, b: string, c: string, d: string)
    ensures a + b + c + d == a + (b + (c + d))
  {
  }

  lemma MembersStep(ms: seq<nat>, j: nat)
    requires j < |ms|
    ensures PrintMembers(ms[j..]) == Decimal(ms[j]) + Rest(ms, j + 1)
  {
    hide Decimal;
    assert ms[j..][0] == ms[j] && ms[j..][1..] == ms[j + 1..];
    if j + 1 == |ms| {
      assert Decimal(ms[j]) + "" == Decimal(ms[j]);
    } else {
      assert Decimal(ms[j]) + "," + PrintMembers(ms[j + 1..]) == Decimal(ms[j]) + ("," + PrintMembers(ms[j + 1..]));
    }
  }
}

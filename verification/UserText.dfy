/** The text of /etc/passwd, /etc/shadow and /etc/group as kernel/src/sys/user.c prints and reads it. */
module UserText {

  const MAX_ENTRIES: nat := 64
  const MAX_MEMBERS: nat := 32
  const MAX_FIELD: nat := 31
  const MAX_HASH: nat := 127
  const LIMIT: nat := 4090
  const WORD32: nat := 0x1_0000_0000
  const WORD64: nat := 0x1_0000_0000_0000_0000

  datatype User = User(name: string, uid: nat, gid: nat, home: string, shell: string, hash: string)
  datatype Group = Group(name: string, gid: nat, members: seq<nat>)
  datatype Option<T> = None | Some(value: T)

  // ----- Numbers

  function Digit(d: nat): char
    requires d < 10
  {
    '0' + d as char
  }

  function Decimal(n: nat): (s: string)
    ensures s != "" && forall i :: 0 <= i < |s| ==> '0' <= s[i] <= '9'
  {
    if n < 10 then [Digit(n)] else Decimal(n / 10) + [Digit(n % 10)]
  }

  /** `strtol`: everything but digits is skipped, and the sum wraps at 64 bits. */
  function Digits(s: string): (v: nat)
    ensures v < WORD64
  {
    if s == "" then 0
    else
      var v, c := Digits(s[..|s| - 1]), s[|s| - 1];
      if '0' <= c <= '9' then (v * 10 + (c - '0') as nat) % WORD64 else v
  }

  function Number(s: string): (v: nat)
    ensures v < WORD32
  {
    Digits(s) % WORD32
  }

  lemma {:induction false} DigitsOfDecimal(n: nat)
    requires n < WORD64
    ensures Digits(Decimal(n)) == n
  {
    var s := Decimal(n);
    if n < 10 {
      assert s[..0] == "";
    } else {
      DigitsOfDecimal(n / 10);
      assert s[..|s| - 1] == Decimal(n / 10);
    }
  }

  /** A 32-bit number is read back. */
  lemma NumberOfDecimal(n: nat)
    requires n < WORD32
    ensures Number(Decimal(n)) == n
  {
    DigitsOfDecimal(n);
  }

  // ----- Separators

  /** Where `strchr` finds the character, or the length. */
  function Index(s: string, c: char): (k: nat)
    ensures k <= |s| && c !in s[..k] && (k < |s| ==> s[k] == c)
  {
    if s == "" || s[0] == c then 0 else 1 + Index(s[1..], c)
  }

  lemma {:induction false} IndexIs(a: string, c: char, rest: string)
    requires c !in a && (rest == "" || rest[0] == c)
    ensures Index(a + rest, c) == |a|
  {
    if a == "" {
      assert a + rest == rest;
    } else {
      assert a[0] in a && (a + rest)[0] == a[0];
      assert (a + rest)[1..] == a[1..] + rest;
      IndexIs(a[1..], c, rest);
    }
  }

  function Before(s: string, c: char): string {
    s[..Index(s, c)]
  }

  /** What follows the first such character; nothing if there is none. */
  function After(s: string, c: char): (r: string)
    ensures s != "" ==> |r| < |s|
  {
    if Index(s, c) < |s| then s[Index(s, c) + 1..] else ""
  }

  predicate Has(s: string, c: char) {
    Index(s, c) < |s|
  }

  lemma Splits(a: string, c: char, rest: string)
    requires c !in a
    ensures Has(a + [c] + rest, c) && Before(a + [c] + rest, c) == a && After(a + [c] + rest, c) == rest
  {
    IndexIs(a, c, [c] + rest);
    assert a + [c] + rest == a + ([c] + rest);
  }

  lemma Whole(a: string, c: char)
    requires c !in a
    ensures !Has(a, c) && Before(a, c) == a && After(a, c) == ""
  {
    IndexIs(a, c, "");
    assert a + "" == a;
  }

  /** `strncpy` into a cleared field. */
  function Cut(s: string, max: nat): string {
    if |s| <= max then s else s[..max]
  }

  /** A file read as a C string. */
  function Text(data: string): string {
    Before(data, '\0')
  }

  // ----- /etc/passwd

  function UserLine(u: User): string {
    u.name + ":" + (Decimal(u.uid) + ":" + (Decimal(u.gid) + ":" + (u.home + ":" + u.shell)))
  }

  function ParseUser(line: string): Option<User> {
    var r1 := After(line, ':');
    var r2 := After(r1, ':');
    var r3 := After(r2, ':');
    if Has(line, ':') && Has(r1, ':') && Has(r2, ':') && Has(r3, ':') then
      Some(User(Cut(Before(line, ':'), MAX_FIELD), Number(Before(r1, ':')), Number(Before(r2, ':')), Cut(Before(r3, ':'), MAX_FIELD), Cut(After(r3, ':'), MAX_FIELD), ""))
    else None
  }

  function PrintUsers(us: seq<User>): string {
    if us == [] then "" else UserLine(us[0]) + "\n" + PrintUsers(us[1..])
  }

  function ParseUsers(text: string, room: nat): (us: seq<User>)
    ensures |us| <= room
    decreases |text|
  {
    if text == "" || room == 0 then []
    else match ParseUser(Before(text, '\n'))
      case Some(u) => [u] + ParseUsers(After(text, '\n'), room - 1)
      case None => ParseUsers(After(text, '\n'), room)
  }

  predicate Plain(s: string) {
    ':' !in s && '\n' !in s && '\0' !in s
  }

  /** A user whose fields fit their arrays and have no separator inside; the shell, which comes last,
      may contain colons. */
  predicate GoodUser(u: User) {
    && Plain(u.name) && Plain(u.home) && '\n' !in u.shell && '\0' !in u.shell && '\n' !in u.hash && '\0' !in u.hash
    && |u.name| <= MAX_FIELD && |u.home| <= MAX_FIELD && |u.shell| <= MAX_FIELD && |u.hash| <= MAX_HASH
    && u.uid < WORD32 && u.gid < WORD32
  }

  lemma DecimalPlain(n: nat)
    ensures Plain(Decimal(n)) && ',' !in Decimal(n)
  {
  }

  lemma UserLineParses(u: User)
    requires GoodUser(u)
    ensures ParseUser(UserLine(u)) == Some(u.(hash := ""))
  {
    hide Index, Has, Before, After, Decimal, Number;
    var t3 := u.home + ":" + u.shell;
    var t2 := Decimal(u.gid) + ":" + t3;
    var t1 := Decimal(u.uid) + ":" + t2;
    DecimalPlain(u.uid);
    DecimalPlain(u.gid);
    Splits(u.name, ':', t1);
    Splits(Decimal(u.uid), ':', t2);
    Splits(Decimal(u.gid), ':', t3);
    Splits(u.home, ':', u.shell);
    NumberOfDecimal(u.uid);
    NumberOfDecimal(u.gid);
  }

  /** A line break or terminator occurs in no line. */
  lemma UserLinePlain(u: User, c: char)
    requires GoodUser(u) && (c == '\n' || c == '\0')
    ensures c !in UserLine(u)
  {
    hide Decimal;
    DecimalPlain(u.uid);
    DecimalPlain(u.gid);
    var t3 := u.home + ":" + u.shell;
    var t2 := Decimal(u.gid) + ":" + t3;
    var t1 := Decimal(u.uid) + ":" + t2;
    assert c !in t3;
    assert c !in t2;
    assert c !in t1;
  }

  function NoHashes(us: seq<User>): (r: seq<User>)
    ensures |r| == |us| && forall i :: 0 <= i < |us| ==> r[i] == us[i].(hash := "")
  {
    if us == [] then [] else [us[0].(hash := "")] + NoHashes(us[1..])
  }

  /** /etc/passwd is read back, hashes apart. */
  lemma {:induction false} UsersParse(us: seq<User>, room: nat)
    requires |us| <= room && forall i :: 0 <= i < |us| ==> GoodUser(us[i])
    ensures ParseUsers(PrintUsers(us), room) == NoHashes(us) && '\0' !in PrintUsers(us)
  {
    hide UserLine, ParseUser, Index, Before, After, Has, GoodUser;
    if us != [] {
      var line, rest := UserLine(us[0]), PrintUsers(us[1..]);
      UserLineParses(us[0]);
      UserLinePlain(us[0], '\n');
      UserLinePlain(us[0], '\0');
      Splits(line, '\n', rest);
      UsersParse(us[1..], room - 1);
    }
  }

  // ----- /etc/shadow

  function PrintHashes(us: seq<User>): string {
    if us == [] then "" else us[0].name + ":" + us[0].hash + "\n" + PrintHashes(us[1..])
  }

  /** The first user of that name gets the hash. */
  function SetHash(us: seq<User>, name: string, hash: string): (r: seq<User>)
    ensures |r| == |us|
  {
    if us == [] then []
    else if us[0].name == name then [us[0].(hash := Cut(hash, MAX_HASH))] + us[1..]
    else [us[0]] + SetHash(us[1..], name, hash)
  }

  function ParseHashes(us: seq<User>, text: string): (r: seq<User>)
    ensures |r| == |us|
    decreases |text|
  {
    if text == "" then us
    else
      var line := Before(text, '\n');
      ParseHashes(if Has(line, ':') then SetHash(us, Before(line, ':'), After(line, ':')) else us, After(text, '\n'))
  }

  ghost predicate DistinctNames(us: seq<User>) {
    forall i, j :: 0 <= i < j < |us| ==> us[i].name != us[j].name
  }

  lemma {:induction false} SetHashAt(us: seq<User>, k: nat, name: string, hash: string)
    requires k < |us| && us[k].name == name && |hash| <= MAX_HASH && forall i :: 0 <= i < k ==> us[i].name != name
    ensures SetHash(us, name, hash) == us[k := us[k].(hash := hash)]
  {
    if k > 0 { SetHashAt(us[1..], k - 1, name, hash); }
  }

  /** `cur` has the hashes of the first `k` users. */
  ghost predicate HashedTo(us: seq<User>, cur: seq<User>, k: nat) {
    |cur| == |us| && forall i :: 0 <= i < |us| ==> cur[i] == if i < k then us[i] else us[i].(hash := "")
  }

  /** How much of /etc/shadow matters: up to the last hash that is not empty. */
  function HashPart(us: seq<User>): (n: nat)
    ensures n <= |PrintHashes(us)|
  {
    if us == [] then 0
    else
      var line, later := |us[0].name| + 1 + |us[0].hash|, HashPart(us[1..]);
      if later > 0 then line + 1 + later else if us[0].hash != "" then line else 0
  }

  lemma {:induction false} NoPart(us: seq<User>)
    ensures HashPart(us) == 0 <==> forall i :: 0 <= i < |us| ==> us[i].hash == ""
  {
    if us != [] {
      NoPart(us[1..]);
      assert forall i :: 1 <= i < |us| ==> us[i] == us[1..][i - 1];
    }
  }

  lemma HashLinePlain(u: User)
    requires GoodUser(u)
    ensures ':' !in u.name && '\n' !in u.name + ":" + u.hash && '\0' !in u.name + ":" + u.hash
  {
    assert '\n' !in u.name + ":" && '\0' !in u.name + ":";
  }

  /** The first `m` characters of /etc/shadow give the users of /etc/passwd their hashes exactly when
      they reach the last hash that is not empty. */
  lemma {:induction false} CutHashes(us: seq<User>, cur: seq<User>, k: nat, m: nat)
    requires k <= |us| && DistinctNames(us) && (forall i :: 0 <= i < |us| ==> GoodUser(us[i])) && HashedTo(us, cur, k)
    requires m <= |PrintHashes(us[k..])|
    ensures ParseHashes(cur, PrintHashes(us[k..])[..m]) == us <==> m >= HashPart(us[k..])
    decreases |us| - k
  {
    hide Index, Before, After, Has, SetHash, ParseHashes, DistinctNames, GoodUser;
    if k == |us| {
      assert cur == us;
      NoHashLine(cur);
    } else {
      var u, rest := us[k], us[k + 1..];
      var line := u.name + ":" + u.hash;
      assert us[k..][0] == u && us[k..][1..] == rest;
      var text := PrintHashes(us[k..])[..m];
      assert PrintHashes(us[k..]) == line + "\n" + PrintHashes(rest);
      HashLinePlain(u);
      if m <= |line| {
        assert text == line[..m];
        LastHash(us, cur, k, m);
      } else {
        var n := m - |line| - 1;
        assert text == line + "\n" + PrintHashes(rest)[..n];
        OneHash(us, cur, k, PrintHashes(rest)[..n]);
        CutHashes(us, cur[k := u], k + 1, n);
      }
    }
  }

  lemma NoHashLine(cur: seq<User>)
    ensures ParseHashes(cur, "") == cur
  {
  }

  /** A whole line gives one user its hash. */
  lemma OneHash(us: seq<User>, cur: seq<User>, k: nat, rest: string)
    requires k < |us| && DistinctNames(us) && GoodUser(us[k]) && HashedTo(us, cur, k)
    ensures HashedTo(us, cur[k := us[k]], k + 1)
    ensures ParseHashes(cur, us[k].name + ":" + us[k].hash + "\n" + rest) == ParseHashes(cur[k := us[k]], rest)
  {
    hide Index, Before, After, Has, SetHash;
    var u := us[k];
    HashLinePlain(u);
    SetHashAt(cur, k, u.name, u.hash);
    Splits(u.name + ":" + u.hash, '\n', rest);
    Splits(u.name, ':', u.hash);
  }

  lemma LastHash(us: seq<User>, cur: seq<User>, k: nat, m: nat)
    requires k < |us| && DistinctNames(us) && GoodUser(us[k]) && HashedTo(us, cur, k)
    requires m <= |us[k].name| + 1 + |us[k].hash|
    ensures ParseHashes(cur, (us[k].name + ":" + us[k].hash)[..m]) == us <==> m >= HashPart(us[k..])
  {
    hide Index, Before, After, Has, SetHash, DistinctNames, GoodUser, HashPart;
    var u := us[k];
    var line := u.name + ":" + u.hash;
    var text := line[..m];
    HashLinePlain(u);
    PartOf(us, k);
    Whole(text, '\n');
    if m <= |u.name| {
      assert text == u.name[..m];
      Whole(text, ':');
      HashesLeft(us, cur, k, "");
      assert cur[k := cur[k].(hash := "")] == cur;
    } else {
      var hash := u.hash[..m - |u.name| - 1];
      assert text == u.name + ":" + hash;
      Splits(u.name, ':', hash);
      FirstNamed(us, cur, k);
      SetHashAt(cur, k, u.name, hash);
      HashesLeft(us, cur, k, hash);
    }
  }

  lemma PartOf(us: seq<User>, k: nat)
    requires k < |us|
    ensures var line, later := |us[k].name| + 1 + |us[k].hash|, HashPart(us[k + 1..]);
      HashPart(us[k..]) == if later > 0 then line + 1 + later else if us[k].hash != "" then line else 0
  {
    assert us[k..][0] == us[k] && us[k..][1..] == us[k + 1..];
  }

  lemma FirstNamed(us: seq<User>, cur: seq<User>, k: nat)
    requires k < |us| && DistinctNames(us) && GoodUser(us[k]) && HashedTo(us, cur, k)
    ensures cur[k].name == us[k].name && |us[k].hash| <= MAX_HASH && forall i :: 0 <= i < k ==> cur[i].name != us[k].name
  {
  }

  /** Whatever hash the next user gets, the rest is right when no hash is left. */
  lemma HashesLeft(us: seq<User>, cur: seq<User>, k: nat, hash: string)
    requires k < |us| && HashedTo(us, cur, k)
    ensures cur[k := cur[k].(hash := hash)] == us <==> hash == us[k].hash && HashPart(us[k + 1..]) == 0
  {
    var rest, made := us[k + 1..], cur[k := cur[k].(hash := hash)];
    NoPart(rest);
    hide HashPart;
    if hash == us[k].hash && HashPart(rest) == 0 {
      forall i | 0 <= i < |us|
        ensures made[i] == us[i]
      {
        if i > k { assert rest[i - k - 1] == us[i]; }
      }
    }
    if made == us {
      forall i | 0 <= i < |rest|
        ensures rest[i].hash == ""
      {
        assert made[i + k + 1] == us[i + k + 1] && rest[i] == us[i + k + 1];
      }
    }
  }

  // ----- /etc/group

  function PrintMembers(ms: seq<nat>): string {
    if ms == [] then "" else if |ms| == 1 then Decimal(ms[0]) else Decimal(ms[0]) + "," + PrintMembers(ms[1..])
  }

  function ParseMembers(s: string, room: nat): (ms: seq<nat>)
    ensures |ms| <= room
    decreases |s|
  {
    if s == "" || room == 0 then [] else [Number(Before(s, ','))] + ParseMembers(After(s, ','), room - 1)
  }

  function GroupLine(g: Group): string {
    g.name + ":" + (Decimal(g.gid) + ":" + PrintMembers(g.members))
  }

  function ParseGroup(line: string): Option<Group> {
    var r1 := After(line, ':');
    if Has(line, ':') && Has(r1, ':') then
      Some(Group(Cut(Before(line, ':'), MAX_FIELD), Number(Before(r1, ':')), ParseMembers(After(r1, ':'), MAX_MEMBERS)))
    else None
  }

  function PrintGroups(gs: seq<Group>): string {
    if gs == [] then "" else GroupLine(gs[0]) + "\n" + PrintGroups(gs[1..])
  }

  function ParseGroups(text: string, room: nat): (gs: seq<Group>)
    ensures |gs| <= room
    decreases |text|
  {
    if text == "" || room == 0 then []
    else match ParseGroup(Before(text, '\n'))
      case Some(g) => [g] + ParseGroups(After(text, '\n'), room - 1)
      case None => ParseGroups(After(text, '\n'), room)
  }

  predicate GoodGroup(g: Group) {
    Plain(g.name) && |g.name| <= MAX_FIELD && g.gid < WORD32 && |g.members| <= MAX_MEMBERS && forall i :: 0 <= i < |g.members| ==> g.members[i] < WORD32
  }

  lemma {:induction false} MembersParse(ms: seq<nat>, room: nat)
    requires |ms| <= room && forall i :: 0 <= i < |ms| ==> ms[i] < WORD32
    ensures ParseMembers(PrintMembers(ms), room) == ms && Plain(PrintMembers(ms))
  {
    hide Index, Has, Before, After, Decimal, Number;
    if ms != [] {
      DecimalPlain(ms[0]);
      NumberOfDecimal(ms[0]);
      MembersParse(ms[1..], room - 1);
      if |ms| == 1 {
        Whole(Decimal(ms[0]), ',');
      } else {
        Splits(Decimal(ms[0]), ',', PrintMembers(ms[1..]));
        assert Plain(Decimal(ms[0]) + ",");
      }
    }
  }

  lemma GroupLineParses(g: Group)
    requires GoodGroup(g)
    ensures ParseGroup(GroupLine(g)) == Some(g) && '\n' !in GroupLine(g) && '\0' !in GroupLine(g)
  {
    hide Index, Has, Before, After, Decimal, Number, ParseMembers, PrintMembers;
    DecimalPlain(g.gid);
    NumberOfDecimal(g.gid);
    MembersParse(g.members, MAX_MEMBERS);
    var t := Decimal(g.gid) + ":" + PrintMembers(g.members);
    assert '\n' !in t && '\0' !in t;
    Splits(g.name, ':', t);
    Splits(Decimal(g.gid), ':', PrintMembers(g.members));
  }

  /** /etc/group is read back. */
  lemma {:induction false} GroupsParse(gs: seq<Group>, room: nat)
    requires |gs| <= room && forall i :: 0 <= i < |gs| ==> GoodGroup(gs[i])
    ensures ParseGroups(PrintGroups(gs), room) == gs && '\0' !in PrintGroups(gs)
  {
    hide GroupLine, ParseGroup, Index, Before, After, Has, GoodGroup;
    if gs != [] {
      var line, rest := GroupLine(gs[0]), PrintGroups(gs[1..]);
      GroupLineParses(gs[0]);
      Splits(line, '\n', rest);
      GroupsParse(gs[1..], room - 1);
    }
  }

  // ----- The limit of a file

  function Limited(s: string): string {
    if |s| <= LIMIT then s else s[..LIMIT]
  }

  lemma LimitedTwice(a: string, b: string)
    ensures Limited(Limited(a) + b) == Limited(a + b)
  {
  }

  /** A file that is cut inside the last line's fields, or earlier, is not read back: a shell is
      shorter or a user missing. */
  lemma {:induction false} CutUsersDiffer(us: seq<User>, room: nat, m: nat)
    requires us != [] && |us| <= room && m + 1 < |PrintUsers(us)| && forall i :: 0 <= i < |us| ==> GoodUser(us[i])
    ensures ParseUsers(PrintUsers(us)[..m], room) != NoHashes(us)
  {
    hide UserLine, ParseUser, Index, Before, After, Has, GoodUser;
    var line, rest := UserLine(us[0]), PrintUsers(us[1..]);
    var text := PrintUsers(us)[..m];
    assert PrintUsers(us) == line + "\n" + rest;
    UserLineParses(us[0]);
    UserLinePlain(us[0], '\n');
    if m <= |line| {
      assert text == line[..m];
      Whole(text, '\n');
      if m < |line| { ShortLine(us[0], m); }
      if text != "" && |us| == 1 && ParseUser(text).Some? {
        assert NoHashes(us) == [us[0].(hash := "")];
        assert ParseUsers(text, room) == [ParseUser(text).value] + ParseUsers("", room - 1);
      } else if |us| > 1 {
        assert |ParseUsers(text, room)| <= 1;
      }
    } else {
      var n := m - |line| - 1;
      assert text == line + "\n" + rest[..n];
      Splits(line, '\n', rest[..n]);
      assert |us| > 1;
      CutUsersDiffer(us[1..], room - 1, n);
      assert ParseUsers(text, room)[1..] == ParseUsers(rest[..n], room - 1);
      assert NoHashes(us)[1..] == NoHashes(us[1..]);
    }
  }

  /** Without its last line break, or complete, /etc/passwd is read back; cut shorter it is not. */
  lemma CutUsers(us: seq<User>, room: nat, m: nat)
    requires |us| <= room && m <= |PrintUsers(us)| && forall i :: 0 <= i < |us| ==> GoodUser(us[i])
    ensures ParseUsers(PrintUsers(us)[..m], room) == NoHashes(us) <==> m + 1 >= |PrintUsers(us)|
  {
    hide UserLine, ParseUser, ParseUsers, GoodUser, NoHashes;
    var text := PrintUsers(us);
    UsersParse(us, room);
    assert text[..|text|] == text;
    if m + 1 < |text| { CutUsersDiffer(us, room, m); }
    if m + 1 == |text| { UsersWithoutBreak(us, room); }
  }

  lemma {:induction false} UsersWithoutBreak(us: seq<User>, room: nat)
    requires us != [] && |us| <= room && forall i :: 0 <= i < |us| ==> GoodUser(us[i])
    ensures PrintUsers(us) != "" && ParseUsers(PrintUsers(us)[..|PrintUsers(us)| - 1], room) == NoHashes(us)
  {
    hide UserLine, ParseUser, Index, Before, After, Has, GoodUser;
    var line, rest := UserLine(us[0]), PrintUsers(us[1..]);
    var text := PrintUsers(us)[..|PrintUsers(us)| - 1];
    assert PrintUsers(us) == line + "\n" + rest;
    UserLineParses(us[0]);
    UserLinePlain(us[0], '\n');
    NoUser();
    if |us| == 1 {
      assert text == line;
      Whole(line, '\n');
      assert NoHashes(us) == [us[0].(hash := "")];
    } else {
      UsersWithoutBreak(us[1..], room - 1);
      assert text == line + "\n" + rest[..|rest| - 1];
      Splits(line, '\n', rest[..|rest| - 1]);
    }
  }

  lemma NoUser()
    ensures ParseUser("") == None
  {
  }

  lemma IndexPrefix(s: string, c: char, m: nat)
    requires m <= |s|
    ensures Index(s[..m], c) == if Index(s, c) < m then Index(s, c) else m
  {
    var k := Index(s, c);
    if k < m {
      IndexIs(s[..k], c, s[k..m]);
      assert s[..k] + s[k..m] == s[..m];
    } else {
      assert s[..m] == s[..k][..m];
      IndexIs(s[..m], c, "");
      assert s[..m] + "" == s[..m];
    }
  }

  /** The first parts of a text split like the text, as far as they go. */
  lemma PrefixSplits(s: string, c: char, m: nat)
    requires m <= |s| && Has(s[..m], c)
    ensures Has(s, c) && Before(s[..m], c) == Before(s, c)
    ensures var k := Index(s, c) + 1; k <= m && After(s[..m], c) == After(s, c)[..m - k] && |s| - |After(s, c)| == k
  {
    IndexPrefix(s, c, m);
  }

  /** A line cut short is not read as the same user. */
  lemma ShortLine(u: User, m: nat)
    requires GoodUser(u) && m < |UserLine(u)|
    ensures ParseUser(UserLine(u)[..m]) != Some(u.(hash := ""))
  {
    hide UserLine, Index, Has, Before, After, Number, Decimal;
    var line := UserLine(u);
    UserLineParses(u);
    var cut := line[..m];
    if ParseUser(cut).Some? {
      PrefixSplits(line, ':', m);
      var r1, c1 := After(line, ':'), After(cut, ':');
      PrefixSplits(r1, ':', |c1|);
      var r2, c2 := After(r1, ':'), After(c1, ':');
      PrefixSplits(r2, ':', |c2|);
      var r3, c3 := After(r2, ':'), After(c2, ':');
      PrefixSplits(r3, ':', |c3|);
      assert |After(c3, ':')| < |After(r3, ':')|;
      ShellOf(u);
    }
  }

  lemma ShellOf(u: User)
    requires GoodUser(u)
    ensures After(After(After(After(UserLine(u), ':'), ':'), ':'), ':') == u.shell
  {
    hide Index, Has, Before, After, Decimal, Number;
    var t3 := u.home + ":" + u.shell;
    var t2 := Decimal(u.gid) + ":" + t3;
    DecimalPlain(u.uid);
    DecimalPlain(u.gid);
    Splits(u.name, ':', Decimal(u.uid) + ":" + t2);
    Splits(Decimal(u.uid), ':', t2);
    Splits(Decimal(u.gid), ':', t3);
    Splits(u.home, ':', u.shell);
  }

  // ----- Groups cut short

  lemma {:induction false} FewerDigits(n: nat, j: nat)
    requires n < WORD64 && 0 < j < |Decimal(n)|
    ensures Digits(Decimal(n)[..j]) < n
  {
    var front := Decimal(n / 10);
    assert Decimal(n)[..j] == front[..j];
    if j == |front| {
      assert front[..j] == front;
      DigitsOfDecimal(n / 10);
    } else {
      FewerDigits(n / 10, j);
    }
  }

  lemma {:induction false} CutMembers(ms: seq<nat>, room: nat, m: nat)
    requires |ms| <= room && m < |PrintMembers(ms)| && forall i :: 0 <= i < |ms| ==> ms[i] < WORD32
    ensures ParseMembers(PrintMembers(ms)[..m], room) != ms
  {
    hide Index, Has, Before, After, Decimal, Digits;
    var first := Decimal(ms[0]);
    var text := PrintMembers(ms)[..m];
    DecimalPlain(ms[0]);
    if m <= |first| {
      assert text == first[..m];
      Whole(text, ',');
      if 0 < m < |first| { FewerDigits(ms[0], m); }
    } else {
      var n := m - |first| - 1;
      assert text == first + "," + PrintMembers(ms[1..])[..n];
      Splits(first, ',', PrintMembers(ms[1..])[..n]);
      CutMembers(ms[1..], room - 1, n);
    }
  }

  lemma ShortGroup(g: Group, m: nat)
    requires GoodGroup(g) && m < |GroupLine(g)|
    ensures ParseGroup(GroupLine(g)[..m]) != Some(g)
  {
    hide Index, Has, Before, After, Number, Decimal, ParseMembers, PrintMembers;
    var line := GroupLine(g);
    var cut := line[..m];
    if ParseGroup(cut).Some? {
      PrefixSplits(line, ':', m);
      var r1, c1 := After(line, ':'), After(cut, ':');
      PrefixSplits(r1, ':', |c1|);
      DecimalPlain(g.gid);
      Splits(g.name, ':', Decimal(g.gid) + ":" + PrintMembers(g.members));
      Splits(Decimal(g.gid), ':', PrintMembers(g.members));
      CutMembers(g.members, MAX_MEMBERS, |After(c1, ':')|);
    }
  }

  /** /etc/group is read back when at most its last line break is missing. */
  lemma {:induction false} CutGroups(gs: seq<Group>, room: nat, m: nat)
    requires |gs| <= room && m <= |PrintGroups(gs)| && forall i :: 0 <= i < |gs| ==> GoodGroup(gs[i])
    ensures ParseGroups(PrintGroups(gs)[..m], room) == gs <==> m + 1 >= |PrintGroups(gs)|
  {
    hide GroupLine, ParseGroup, Index, Before, After, Has, GoodGroup;
    if gs != [] {
      var line, rest := GroupLine(gs[0]), PrintGroups(gs[1..]);
      var text := PrintGroups(gs)[..m];
      assert PrintGroups(gs) == line + "\n" + rest;
      GroupLineParses(gs[0]);
      NoGroup();
      if m <= |line| {
        assert text == line[..m];
        Whole(text, '\n');
        if m < |line| { ShortGroup(gs[0], m); } else { assert text == line; }
        OneGroup(text, gs[0], room, m == |line|);
        assert |gs| > 1 ==> |rest| > 0;
      } else {
        var n := m - |line| - 1;
        assert text == line + "\n" + rest[..n];
        Splits(line, '\n', rest[..n]);
        CutGroups(gs[1..], room - 1, n);
        assert gs == [gs[0]] + gs[1..];
      }
    }
  }

  lemma NoGroup()
    ensures ParseGroup("") == None
  {
  }

  lemma OneGroup(text: string, g: Group, room: nat, same: bool)
    requires room > 0 && '\n' !in text && (ParseGroup(text) == Some(g) <==> same)
    ensures |ParseGroups(text, room)| <= 1 && (ParseGroups(text, room) == [g] <==> same)
  {
    hide ParseGroup, Index, Before, After, Has;
    Whole(text, '\n');
    NoGroup();
    assert ParseGroups("", room) == [];
    if ParseGroup(text).Some? { assert ParseGroups(text, room) == [ParseGroup(text).value]; }
  }
}

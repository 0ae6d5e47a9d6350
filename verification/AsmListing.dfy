/** What assembled code says, read from the bytes: a disassembler by opcode (instruction entries of
    chapters 3 and 4 of the Intel SDM, Volume 2), the spelling of a source line, and the proof that the
    code of every line disassembles to what the line spells. */
module AsmListing {
  import opened AsmCode
  import opened AsmText
  import opened AsmProgram
  import opened Assembler

  // ----- The disassembler

  datatype Ins = Plain(name: string) | Int(vector: nat) | Mov(reg: string, imm: nat) | Branch(name: string, disp: nat)

  function RegisterName(k: nat): string {
    match k
    case 0 => "rax" case 1 => "rcx" case 2 => "rdx" case 3 => "rbx"
    case 4 => "rsp" case 5 => "rbp" case 6 => "rsi" case 7 => "rdi"
    case 8 => "r8" case 9 => "r9" case 10 => "r10" case 11 => "r11"
    case 12 => "r12" case 13 => "r13" case 14 => "r14" case _ => "r15"
  }

  /** The number in `n` bytes from byte `i` on, least significant first. */
  function Number256(bs: seq<Byte>, i: nat, n: nat): nat
    requires i + n <= |bs|
    decreases n
  {
    if n == 0 then 0 else bs[i] as nat + 256 * Number256(bs, i + 1, n - 1)
  }

  function ByteName(b: Byte): Option<string> {
    if b == 0x90 then Some("nop")
    else if b == 0xC3 then Some("ret")
    else if b == 0xF4 then Some("hlt")
    else if b == 0xFA then Some("cli")
    else if b == 0xFB then Some("sti")
    else if b == 0xCC then Some("int3")
    else None
  }

  /** The first instruction of the bytes, and how long it is. */
  function First(bs: seq<Byte>): Option<(Ins, nat)> {
    if bs == [] then None
    else if ByteName(bs[0]).Some? then Some((Plain(ByteName(bs[0]).value), 1))
    else if |bs| >= 2 && bs[0] == 0x0F && bs[1] == 0x05 then Some((Plain("syscall"), 2))
    else if |bs| >= 2 && bs[0] == 0x0F && bs[1] == 0x0B then Some((Plain("ud2"), 2))
    else if |bs| >= 2 && bs[0] == 0xCD then Some((Int(bs[1]), 2))
    else if |bs| >= 5 && bs[0] == 0xE8 then Some((Branch("call", Number256(bs, 1, 4)), 5))
    else if |bs| >= 5 && bs[0] == 0xE9 then Some((Branch("jmp", Number256(bs, 1, 4)), 5))
    else if |bs| >= 10 && bs[0] == 0x48 && 0xB8 <= bs[1] <= 0xBF then Some((Mov(RegisterName(bs[1] - 0xB8), Number256(bs, 2, 8)), 10))
    else if |bs| >= 10 && bs[0] == 0x49 && 0xB8 <= bs[1] <= 0xBF then Some((Mov(RegisterName(bs[1] - 0xB8 + 8), Number256(bs, 2, 8)), 10))
    else None
  }

  function Disassemble(bs: seq<Byte>): Option<seq<Ins>>
    decreases |bs|
  {
    if bs == [] then Some([]) else
    match First(bs)
    case None => None
    case Some((ins, n)) =>
      if n == 0 || n > |bs| then None else
      match Disassemble(bs[n..])
      case None => None
      case Some(rest) => Some([ins] + rest)
  }

  /** An emitted instruction as the disassembler shows it. */
  function Shown(m: Machine): Ins
    requires m.Valid()
  {
    match m
    case One(op) => Plain(if ByteName(op).Some? then ByteName(op).value else "")
    case Two(op) => Plain(if op == 0x05 then "syscall" else "ud2")
    case Interrupt(vector) => Int(vector)
    case Move(reg, imm) => Mov(RegisterName(reg), imm)
    case Relative(call_, disp) => Branch(if call_ then "call" else "jmp", disp)
  }

  lemma {:induction false} NumberIsValue(bs: seq<Byte>, i: nat, n: nat)
    requires i + n <= |bs|
    ensures Number256(bs, i, n) == Value(bs[i..i + n])
    decreases n
  {
    if n > 0 {
      NumberIsValue(bs, i + 1, n - 1);
      assert bs[i..i + n][1..] == bs[i + 1..i + n];
    }
  }

  lemma FirstShown(m: Machine, rest: seq<Byte>)
    requires m.Valid()
    ensures First(Encode(m) + rest) == Some((Shown(m), m.Size()))
  {
    var bs := Encode(m) + rest;
    Widths();
    match m
    case One(op) =>
    case Two(op) =>
    case Interrupt(vector) =>
    case Move(reg, imm) =>
      NumberIsValue(bs, 2, 8);
      assert bs[2..10] == Little(imm, 8);
      LittleValue(imm, 8);
    case Relative(call_, disp) =>
      NumberIsValue(bs, 1, 4);
      assert bs[1..5] == Little(disp, 4);
      LittleValue(disp, 4);
  }

  function AllShown(ms: seq<Machine>): (shown: seq<Ins>)
    requires AllValid(ms)
    ensures |shown| == |ms| && forall i :: 0 <= i < |ms| ==> shown[i] == Shown(ms[i])
  {
    if ms == [] then [] else [Shown(ms[0])] + AllShown(ms[1..])
  }

  lemma {:induction false} DisassembleShown(ms: seq<Machine>)
    requires AllValid(ms)
    ensures Disassemble(EncodeAll(ms)) == Some(AllShown(ms))
  {
    hide Encode, First, Shown;
    if ms != [] {
      var rest := EncodeAll(ms[1..]);
      FirstShown(ms[0], rest);
      assert (Encode(ms[0]) + rest)[ms[0].Size()..] == rest;
      DisassembleShown(ms[1..]);
    }
  }

  // ----- Numerals

  /** The value of a digit, 16 for what is none. */
  function DigitOf(c: char): nat {
    match c
    case '0' => 0 case '1' => 1 case '2' => 2 case '3' => 3 case '4' => 4 case '5' => 5 case '6' => 6 case '7' => 7
    case '8' => 8 case '9' => 9 case 'a' => 10 case 'b' => 11 case 'c' => 12 case 'd' => 13 case 'e' => 14 case 'f' => 15
    case _ => 16
  }

  predicate AllDigits(s: string, base: nat) {
    forall i :: 0 <= i < |s| ==> DigitOf(s[i]) < base
  }

  /** The number a row of digits stands for, of any size. */
  function ValueOf(s: string, base: nat): nat {
    if s == [] then 0 else base * ValueOf(s[..|s| - 1], base) + DigitOf(s[|s| - 1])
  }

  predicate Hexadecimal(s: string) {
    |s| >= 2 && s[0] == '0' && s[1] == 'x'
  }

  /** Decimal digits, or 0x and hexadecimal ones, possibly none. */
  predicate Numeral(s: string) {
    if Hexadecimal(s) then AllDigits(s[2..], 16) else s != [] && AllDigits(s, 10)
  }

  function NumeralValue(s: string): nat {
    if Hexadecimal(s) then ValueOf(s[2..], 16) else ValueOf(s, 10)
  }

  predicate NoCapitals(s: string) {
    forall i :: 0 <= i < |s| ==> !('A' <= s[i] <= 'Z')
  }

  lemma DigitIs(c: char, base: nat)
    requires (base == 10 || base == 16) && !('A' <= c <= 'Z')
    ensures Digit(c, base) == if DigitOf(c) < base then DigitOf(c) else -1
  {
  }

  lemma {:induction false} DigitsOn(s: string, c: char, base: nat, v: nat)
    requires v < TWO64
    ensures Digits(s + [c], base, v) == match Digits(s, base, v)
      case None => None
      case Some(n) => if Digit(c, base) < 0 then None else Some((n * base + Digit(c, base)) % TWO64)
    decreases |s|
  {
    hide Digit;
    if s == [] {
      assert (s + [c])[1..] == [];
    } else {
      assert (s + [c])[1..] == s[1..] + [c];
      if Digit(s[0], base) >= 0 { DigitsOn(s[1..], c, base, (v * base + Digit(s[0], base)) % TWO64); }
    }
  }

  lemma WrapOn(n: nat, base: nat, d: nat)
    ensures (n % TWO64 * base + d) % TWO64 == (base * n + d) % TWO64
  {
    var q := n / TWO64;
    assert base * n + d == q * base * TWO64 + (n % TWO64 * base + d) by { assert n == q * TWO64 + n % TWO64; }
    ModOn(q * base, n % TWO64 * base + d);
  }

  lemma ModOn(k: nat, x: nat)
    ensures (k * TWO64 + x) % TWO64 == x % TWO64
  {
  }

  lemma {:induction false} DigitsAre(s: string, base: nat)
    requires (base == 10 || base == 16) && NoCapitals(s)
    ensures Digits(s, base, 0) == if AllDigits(s, base) then Some(ValueOf(s, base) % TWO64) else None
  {
    hide Digit, DigitOf;
    if s != [] {
      var f, c := s[..|s| - 1], s[|s| - 1];
      DigitsAre(f, base);
      assert s == f + [c];
      DigitsOn(f, c, base, 0);
      DigitIs(c, base);
      if AllDigits(f, base) && DigitOf(c) < base { WrapOn(ValueOf(f, base), base, DigitOf(c)); }
      assert AllDigits(s, base) <==> AllDigits(f, base) && DigitOf(c) < base;
    }
  }

  /** Operands are read as the numerals they are, modulo 2^64. */
  lemma NumberReads(s: string)
    requires NoCapitals(s)
    ensures Number(s) == if Numeral(s) then Some(NumeralValue(s) % TWO64) else None
  {
    hide Digits, ValueOf, DigitOf;
    DigitsAre(s, 10);
    if Hexadecimal(s) { DigitsAre(s[2..], 16); }
  }

  // ----- How a line is spelled

  predicate Blanks(s: string) {
    forall i :: 0 <= i < |s| ==> s[i] == ' ' || s[i] == '\t'
  }

  predicate Spaces(s: string) {
    forall i :: 0 <= i < |s| ==> s[i] == ' ' || s[i] == '\t' || s[i] == '\r' || s[i] == '\n'
  }

  /** `t` is `s` without the white space around it. */
  ghost predicate Trims(s: string, t: string) {
    && (exists x, y :: Blanks(x) && Spaces(y) && s == x + t + y)
    && (t == [] || (!Blanks(t[..1]) && !Spaces(t[|t| - 1..])))
  }

  /** `t` is the line without its comment and the white space around it. */
  ghost predicate TextOf(raw: string, t: string) {
    exists c, tail :: raw == c + tail && ';' !in c && '#' !in c && (tail == [] || tail[0] == ';' || tail[0] == '#') && Trims(c, t)
  }

  /** `u` is `s` in lower case. */
  predicate InLowerCase(s: string, u: string) {
    |u| == |s| && forall i :: 0 <= i < |s| ==> u[i] == if 'A' <= s[i] <= 'Z' then s[i] - 'A' + 'a' else s[i]
  }

  /** One or two operands: with a comma, what stands before and behind the first one. */
  ghost predicate SpellsOperands(rest: string, a1: string, a2: Option<string>) {
    if ',' !in rest then a2 == None && Trims(rest, a1)
    else a2.Some? && exists l, r :: rest == l + "," + r && ',' !in l && Trims(l, a1) && Trims(r, a2.value)
  }

  /** The mnemonic stands before the first blank, the operands behind it. */
  ghost predicate Spells(work: string, w: Words) {
    if ' ' !in work then w == Words(work, None, None)
    else ' ' !in w.a0 && w.a0 + " " <= work && w.a1.Some? && SpellsOperands(work[|w.a0| + 1..], w.a1.value, w.a2)
  }

  lemma {:induction false} RightTrimmed(s: string) returns (y: string)
    ensures Spaces(y) && s == TrimRight(s) + y && (TrimRight(s) == [] || !Spaces(TrimRight(s)[|TrimRight(s)| - 1..]))
  {
    if s != [] && s[|s| - 1] in {' ', '\t', '\r', '\n'} {
      y := RightTrimmed(s[..|s| - 1]);
      assert s == TrimRight(s) + (y + [s[|s| - 1]]);
      y := y + [s[|s| - 1]];
    } else {
      y := [];
    }
  }

  lemma {:induction false} LeftTrimmed(s: string) returns (x: string)
    ensures Blanks(x) && s == x + TrimLeft(s) && (TrimLeft(s) == [] || !Blanks(TrimLeft(s)[..1]))
  {
    if s != [] && s[0] in {' ', '\t'} {
      x := LeftTrimmed(s[1..]);
      assert s == ([s[0]] + x) + TrimLeft(s);
      x := [s[0]] + x;
    } else {
      x := [];
    }
  }

  lemma TrimIs(s: string)
    ensures Trims(s, Trim(s))
  {
    hide TrimLeft, TrimRight;
    var y := RightTrimmed(s);
    var x := LeftTrimmed(TrimRight(s));
    var t := Trim(s);
    assert s == x + t + y;
    if t != [] { assert t[|t| - 1..] == TrimRight(s)[|TrimRight(s)| - 1..]; }
  }

  /** Blanks in front are trimmed with the rest. */
  lemma TrimsMore(x: string, s: string, t: string)
    requires Blanks(x) && Trims(s, t)
    ensures Trims(x + s, t)
  {
    var x', y :| Blanks(x') && Spaces(y) && s == x' + t + y;
    assert x + s == (x + x') + t + y;
  }

  lemma SplitSpells(work: string)
    ensures Spells(work, Split(work))
  {
    hide Find, TrimLeft, Trim, SpellsOperands;
    FoundAt(work, ' ');
    var sp := Find(work, ' ');
    if sp < |work| {
      assert work == work[..sp] + " " + work[sp + 1..];
      OperandsSpelled(work[sp + 1..]);
    }
  }

  lemma OperandsSpelled(tail: string)
    ensures var rest := TrimLeft(tail);
      var comma := Find(rest, ',');
      comma <= |rest| && SpellsOperands(tail, Trim(rest[..comma]), if comma == |rest| then None else Some(Trim(TrimLeft(rest[comma + 1..]))))
  {
    hide Find, TrimLeft, Trim, Trims;
    var x := LeftTrimmed(tail);
    var rest := TrimLeft(tail);
    FoundAt(rest, ',');
    var comma := Find(rest, ',');
    TrimIs(rest[..comma]);
    TrimsMore(x, rest[..comma], Trim(rest[..comma]));
    assert ',' !in x;
    if comma == |rest| {
      assert x + rest[..comma] == tail;
    } else {
      var r := rest[comma + 1..];
      var x2 := LeftTrimmed(r);
      TrimIs(TrimLeft(r));
      TrimsMore(x2, TrimLeft(r), Trim(TrimLeft(r)));
      assert tail == (x + rest[..comma]) + "," + r;
    }
  }

  lemma FoundAt(s: string, c: char)
    ensures Find(s, c) <= |s| && c !in s[..Find(s, c)] && (Find(s, c) < |s| ==> s[Find(s, c)] == c)
    ensures c in s <==> Find(s, c) < |s|
  {
    if Find(s, c) == |s| { assert s[..|s|] == s; }
  }

  lemma {:induction false} CommentStripped(raw: string) returns (tail: string)
    ensures raw == StripComment(raw) + tail && (tail == [] || tail[0] == ';' || tail[0] == '#')
    ensures ';' !in StripComment(raw) && '#' !in StripComment(raw)
  {
    if raw == [] || raw[0] == ';' || raw[0] == '#' {
      tail := raw;
    } else {
      tail := CommentStripped(raw[1..]);
    }
  }

  lemma TextRead(raw: string)
    ensures TextOf(raw, Trim(StripComment(raw)))
  {
    hide Trim, StripComment, Trims;
    var tail := CommentStripped(raw);
    TrimIs(StripComment(raw));
  }

  function JoinedLines(lines: seq<string>): string {
    if lines == [] then [] else if |lines| == 1 then lines[0] else lines[0] + "\n" + JoinedLines(lines[1..])
  }

  /** The lines of a source are what its line breaks separate; one at the end opens no further line. */
  lemma {:induction false} LinesAre(src: string)
    ensures forall i :: 0 <= i < |Lines(src)| ==> '\n' !in Lines(src)[i]
    ensures src == JoinedLines(Lines(src)) || src == JoinedLines(Lines(src)) + "\n"
    decreases |src|
  {
    if src == [] { return; }
    LinesStep(src);
    hide JoinedLines, Find, Lines;
    var k := Find(src, '\n');
    JoinedOne(src[..k]);
    if k < |src| {
      LinesAre(src[k + 1..]);
      JoinedMore(src[..k], Lines(src[k + 1..]));
    }
  }

  lemma LinesStep(src: string)
    requires src != []
    ensures var k := Find(src, '\n');
      && '\n' !in src[..k] && Lines([]) == []
      && (k < |src| ==> Lines(src) == [src[..k]] + Lines(src[k + 1..]) && src == src[..k] + "\n" + src[k + 1..])
      && (k == |src| ==> Lines(src) == [src[..k]] && src == src[..k])
  {
    FoundAt(src, '\n');
    hide Find;
    var k := Find(src, '\n');
    if k < |src| {
      CutAt(src, k);
    } else {
      assert [src[..k]] + [] == [src[..k]];
    }
  }

  lemma CutAt(src: string, k: nat)
    requires k < |src| && src[k] == '\n'
    ensures src == src[..k] + "\n" + src[k + 1..]
  {
  }

  lemma JoinedOne(line: string)
    ensures JoinedLines([]) == "" && JoinedLines([line]) == line
  {
  }

  lemma JoinedMore(line: string, lines: seq<string>)
    ensures lines != [] ==> JoinedLines([line] + lines) == line + "\n" + JoinedLines(lines)
    ensures lines == [] ==> [line] + lines == [line]
  {
    assert ([line] + lines)[1..] == lines;
  }

  // ----- Quoted text

  /** A piece of quoted source stands for one character: itself, or behind a backslash a line break,
      a tab, a carriage return or itself. */
  predicate Stands(piece: string, c: char) {
    || (piece == [c] && c != '"' && c != '\\')
    || (|piece| == 2 && piece[0] == '\\' &&
        c == if piece[1] == 'n' then '\n' else if piece[1] == 't' then '\t' else if piece[1] == 'r' then '\r' else piece[1])
  }

  function Joined(pieces: seq<string>): string {
    if pieces == [] then [] else pieces[0] + Joined(pieces[1..])
  }

  /** The text up to a closing quote. */
  ghost predicate Encloses(s: string, pieces: seq<string>, after: string, text: string) {
    s == Joined(pieces) + "\"" + after && |pieces| == |text| && forall i :: 0 <= i < |text| ==> Stands(pieces[i], text[i])
  }

  /** The first quote of the line opens the text. */
  ghost predicate QuotesAt(line: string, at: nat, pieces: seq<string>, after: string, text: string) {
    at < |line| && '"' !in line[..at] && line[at] == '"' && Encloses(line[at + 1..], pieces, after, text)
  }

  ghost predicate Quotes(line: string, text: string) {
    |text| < 120 && exists at, pieces, after :: QuotesAt(line, at, pieces, after, text)
  }

  lemma {:induction false} TextEnclosed(s: string, n: nat) returns (pieces: seq<string>, after: string)
    requires n <= 119 && Quoted(s, n).Some?
    ensures Encloses(s, pieces, after, Quoted(s, n).value)
    decreases |s|
  {
    if s[0] == '"' {
      pieces, after := [], s[1..];
      assert s == "\"" + after;
    } else {
      var k := if s[0] == '\\' && |s| > 1 then 2 else 1;
      pieces, after := TextEnclosed(s[k..], n + 1);
      var rest := pieces;
      pieces := [s[..k]] + rest;
      assert pieces[1..] == rest && s == s[..k] + s[k..];
      var t := Quoted(s, n).value;
      assert t[1..] == Quoted(s[k..], n + 1).value;
      forall i | 0 <= i < |t|
        ensures Stands(pieces[i], t[i])
      {
        if i > 0 { assert pieces[i] == rest[i - 1] && t[i] == t[1..][i - 1]; }
      }
    }
  }

  lemma {:induction false} EnclosedText(s: string, n: nat, pieces: seq<string>, after: string, text: string)
    requires n + |text| <= 119 && Encloses(s, pieces, after, text)
    ensures Quoted(s, n) == Some(text)
    decreases |text|
  {
    if text == [] {
      assert s[0] == '"';
    } else {
      var p := pieces[0];
      assert Stands(p, text[0]);
      assert s == p + (Joined(pieces[1..]) + "\"" + after);
      assert s[..|p|] == p && s[|p|..] == Joined(pieces[1..]) + "\"" + after;
      EnclosedText(s[|p|..], n + 1, pieces[1..], after, text[1..]);
      assert [text[0]] + text[1..] == text;
    }
  }

  lemma TextQuoted(line: string)
    ensures QuotedText(line).Some? ==> Quotes(line, QuotedText(line).value)
  {
    hide Quoted, Find, Encloses;
    FoundAt(line, '"');
    var q := Find(line, '"');
    if QuotedText(line).Some? {
      var pieces, after := TextEnclosed(line[q + 1..], 0);
      assert QuotesAt(line, q, pieces, after, QuotedText(line).value);
    }
  }

  lemma QuotesOne(line: string, text: string)
    requires Quotes(line, text)
    ensures QuotedText(line) == Some(text)
  {
    hide Quoted, Find, Encloses;
    FoundAt(line, '"');
    var at, pieces, after :| QuotesAt(line, at, pieces, after, text);
    FirstQuote(line, at, Find(line, '"'));
    EnclosedText(line[at + 1..], 0, pieces, after, text);
  }

  lemma FirstQuote(line: string, at: nat, q: nat)
    requires at < |line| && '"' !in line[..at] && line[at] == '"'
    requires q <= |line| && '"' !in line[..q] && (q < |line| ==> line[q] == '"')
    ensures q == at
  {
    assert forall i :: 0 <= i < at ==> line[..at][i] != '"';
    assert forall i :: 0 <= i < q ==> line[..q][i] != '"';
  }

  // ----- What a line means

  /** The mnemonics that are instructions by themselves. */
  const PLAIN: set<string> := {"nop", "ret", "hlt", "cli", "sti", "int3", "ud2", "syscall"}

  predicate IsRegister(name: string) {
    exists k: nat :: k < 16 && RegisterName(k) == name
  }

  /** A line the assembler has an instruction for. `orig` is the line as written, for its quotes. */
  ghost predicate Legal(orig: string, w: Words) {
    || w.a0 in PLAIN || w.a0 == "int80" || w.a0 == "exit"
    || (w.a0 == "sleep" && w.a1.Some? && Numeral(w.a1.value))
    || (w.a0 == "int" && w.a1.Some? && Numeral(w.a1.value) && NumeralValue(w.a1.value) % TWO64 < 256)
    || (w.a0 == "mov" && w.a1.Some? && w.a2.Some? && IsRegister(w.a1.value) && Numeral(w.a2.value))
    || ((w.a0 == "print" || w.a0 == "println") && exists text :: Quotes(orig, text))
    || ((w.a0 == "jmp" || w.a0 == "call") && w.a1.Some?)
  }

  /** The instructions of a legal line. A jump gets the displacement `disp`, a print the address `addr`
      of its text. */
  ghost predicate Says(orig: string, w: Words, listing: seq<Ins>, disp: nat, addr: nat)
    requires Legal(orig, w)
  {
    if w.a0 in PLAIN then listing == [Plain(w.a0)]
    else if w.a0 == "int80" then listing == [Int(0x80)]
    else if w.a0 == "exit" then listing == [Mov("rax", 2), Int(0x80)]
    else if w.a0 == "sleep" then listing == [Mov("rax", 5), Mov("rdi", NumeralValue(w.a1.value) % TWO64), Int(0x80)]
    else if w.a0 == "int" then listing == [Int(NumeralValue(w.a1.value) % TWO64)]
    else if w.a0 == "mov" then listing == [Mov(w.a1.value, NumeralValue(w.a2.value) % TWO64)]
    else if w.a0 == "jmp" || w.a0 == "call" then listing == [Branch(w.a0, disp)]
    else exists text :: Quotes(orig, text) && listing == [Mov("rax", 0), Mov("rdi", addr), Mov("rsi", |text| + if w.a0 == "println" then 1 else 0), Plain("syscall")]
  }

  ghost predicate Small(w: Words) {
    NoCapitals(w.a0) && (w.a1.Some? ==> NoCapitals(w.a1.value)) && (w.a2.Some? ==> NoCapitals(w.a2.value))
  }

  lemma RegisterIs(name: string)
    ensures Position(REGISTERS, name) < 16 <==> IsRegister(name)
    ensures Position(REGISTERS, name) < 16 ==> RegisterName(Position(REGISTERS, name)) == name
  {
    hide Position;
    PositionIs(REGISTERS, name);
    assert forall k: nat :: k < 16 ==> REGISTERS[k] == RegisterName(k);
  }

  lemma PositionIs(names: seq<string>, name: string)
    ensures Position(names, name) <= |names| && name !in names[..Position(names, name)]
    ensures Position(names, name) < |names| ==> names[Position(names, name)] == name
    ensures name in names <==> Position(names, name) < |names|
  {
    if Position(names, name) == |names| { assert names[..|names|] == names; }
  }

  /** The parser accepts exactly the legal lines. */
  lemma LegalIsCode(orig: string, w: Words)
    requires Small(w)
    ensures Instruction(orig, w) == Bad <==> !Legal(orig, w)
    ensures Instruction(orig, w) != Bad ==> Instruction(orig, w).Code?
  {
    hide Number, Numeral, NumeralValue, QuotedText, Quotes, Position, IsRegister, NoCapitals;
    if w.a1.Some? { NumberReads(w.a1.value); RegisterIs(w.a1.value); }
    if w.a2.Some? { NumberReads(w.a2.value); }
    TextQuoted(orig);
    if text :| Quotes(orig, text) { QuotesOne(orig, text); }
  }

  /** A line with an instruction: its text, and its words in lower case, both cut after 127 characters. */
  ghost predicate Reads(raw: string, orig: string, w: Words) {
    exists t, work :: TextOf(raw, t) && t != [] && t[|t| - 1] != ':' && orig == Cut(t, 127) && InLowerCase(orig, work) && Spells(work, w)
  }

  /** A label line: a colon ends the text. */
  ghost predicate ReadsLabel(raw: string, name: string) {
    exists t :: TextOf(raw, t) && t != [] && t[|t| - 1] == ':' && Trims(t[..|t| - 1], name)
  }

  lemma Lowered(s: string)
    ensures InLowerCase(s, Lower(s)) && NoCapitals(Lower(s))
  {
    LowerAt(s);
  }

  lemma PartsSmall(work: string, w: Words)
    requires NoCapitals(work) && Spells(work, w)
    ensures Small(w)
  {
    hide SpellsOperands;
    if ' ' in work {
      assert w.a0 == work[..|w.a0|];
      OperandsSmall(work[|w.a0| + 1..], w.a1.value, w.a2);
    }
  }

  lemma OperandsSmall(rest: string, a1: string, a2: Option<string>)
    requires NoCapitals(rest) && SpellsOperands(rest, a1, a2)
    ensures NoCapitals(a1) && (a2.Some? ==> NoCapitals(a2.value))
  {
    hide Trims;
    if ',' !in rest {
      TrimmedSmall(rest, a1);
    } else {
      var l, r :| rest == l + "," + r && ',' !in l && Trims(l, a1) && Trims(r, a2.value);
      assert l == rest[..|l|] && r == rest[|l| + 1..];
      TrimmedSmall(l, a1);
      TrimmedSmall(r, a2.value);
    }
  }

  lemma TrimmedSmall(s: string, t: string)
    requires NoCapitals(s) && Trims(s, t)
    ensures NoCapitals(t)
  {
    var x, y :| Blanks(x) && Spaces(y) && s == x + t + y;
    assert t == s[|x|..|x| + |t|];
  }

  /** What becomes of a line: nothing, a label, or the instruction of its words. */
  lemma LineRead(raw: string) returns (orig: string, w: Words)
    ensures ParseLine(raw).Label? ==> ReadsLabel(raw, ParseLine(raw).name)
    ensures ParseLine(raw) == Blank ==> TextOf(raw, []) || ReadsLabel(raw, [])
    ensures ParseLine(raw).Code? || ParseLine(raw) == Bad ==>
      Reads(raw, orig, w) && Small(w) && ParseLine(raw) == Instruction(orig, w) && (ParseLine(raw).Code? <==> Legal(orig, w))
  {
    hide Trim, StripComment, Instruction, Lower, Split, TextOf, Trims, Spells, Small, Legal, NoCapitals;
    TextRead(raw);
    var t := Trim(StripComment(raw));
    orig := Cut(t, 127);
    w := Split(Lower(orig));
    if t != [] { TrimIs(t[..|t| - 1]); }
    Lowered(orig);
    SplitSpells(Lower(orig));
    PartsSmall(Lower(orig), w);
    LegalIsCode(orig, w);
    InstructionItem(orig, w);
  }

  lemma InstructionItem(orig: string, w: Words)
    ensures !Instruction(orig, w).Blank? && !Instruction(orig, w).Label?
  {
    hide Number, QuotedText, Position;
  }

  /** The operation of a legal line, in terms of its words. */
  ghost predicate OpOf(orig: string, w: Words, op: Op)
    requires Legal(orig, w)
  {
    if w.a0 in PLAIN then op.Simple? && op.m.Valid() && Shown(op.m) == Plain(w.a0)
    else if w.a0 == "int80" then op == Simple(Interrupt(0x80))
    else if w.a0 == "exit" then op == Exit
    else if w.a0 == "sleep" then op == Sleep(NumeralValue(w.a1.value) % TWO64)
    else if w.a0 == "int" then op.Simple? && op.m.Interrupt? && op.m.vector == NumeralValue(w.a1.value) % TWO64
    else if w.a0 == "mov" then op.Simple? && op.m.Move? && RegisterName(op.m.reg) == w.a1.value && op.m.imm == NumeralValue(w.a2.value) % TWO64
    else if w.a0 == "jmp" || w.a0 == "call" then op == Jump(w.a0 == "call", w.a1.value)
    else op.Print? && Quotes(orig, op.text) && op.newline == (w.a0 == "println")
  }

  lemma OpRead(orig: string, w: Words)
    requires Small(w) && Legal(orig, w)
    ensures Instruction(orig, w).Code? && OpOf(orig, w, Instruction(orig, w).op)
  {
    hide Number, Numeral, NumeralValue, QuotedText, Quotes, Position, IsRegister, NoCapitals, RegisterName;
    if w.a1.Some? { NumberReads(w.a1.value); RegisterIs(w.a1.value); }
    if w.a2.Some? { NumberReads(w.a2.value); }
    TextQuoted(orig);
    if text :| Quotes(orig, text) { QuotesOne(orig, text); }
  }

  lemma RegisterNames()
    ensures RegisterName(0) == "rax" && RegisterName(7) == "rdi" && RegisterName(6) == "rsi"
  {
  }

  lemma LoweredShown(op: Op, at: nat, labels: seq<LabelDef>, place: Place)
    requires op.Valid() && place.addr < TWO64 && place.len < TWO64
    ensures AllShown(LowerOp(op, at, labels, place)) ==
      match op
      case Simple(m) => [Shown(m)]
      case Sleep(ticks) => [Mov("rax", 5), Mov("rdi", ticks), Int(0x80)]
      case Exit => [Mov("rax", 2), Int(0x80)]
      case Print(text, newline) => [Mov("rax", 0), Mov("rdi", place.addr), Mov("rsi", place.len), Plain("syscall")]
      case Jump(call_, target) => [Branch(if call_ then "call" else "jmp", Displacement(Target(labels, target), at))]
  {
    hide RegisterName, ByteName, Displacement, Target, AllShown;
    RegisterNames();
    var ms := LowerOp(op, at, labels, place);
    ShownAt(ms);
  }

  lemma ShownAt(ms: seq<Machine>)
    requires AllValid(ms)
    ensures |AllShown(ms)| == |ms| && forall i :: 0 <= i < |ms| ==> AllShown(ms)[i] == Shown(ms[i])
  {
  }

  /** The lowered operation of a legal line says what the line says. */
  lemma OpSays(orig: string, w: Words, op: Op, at: nat, labels: seq<LabelDef>, place: Place)
    requires Legal(orig, w) && OpOf(orig, w, op) && op.Valid() && place.addr < TWO64 && place.len < TWO64
    requires op.Print? ==> place.len == |op.text| + if op.newline then 1 else 0
    ensures Says(orig, w, AllShown(LowerOp(op, at, labels, place)), if op.Jump? then Displacement(Target(labels, op.target), at) else 0, place.addr)
  {
    hide Numeral, NumeralValue, Quotes, RegisterName, ByteName, Displacement, Target, AllShown, LowerOp, Legal;
    LoweredShown(op, at, labels, place);
  }

  // ----- The program

  /** The bytes of the program between the sizes of the items before and after item `i`. */
  ghost function ItemBytes(program: seq<Byte>, items: seq<Item>, i: nat): seq<Byte>
    requires i < |items|
  {
    var from, to := Size(items[..i]), Size(items[..i + 1]);
    if from <= to <= |program| then program[from..to] else []
  }

  /** They are the code of the item, and the code of all items together ends where the last one's does. */
  lemma ItemCode(items: seq<Item>, i: nat)
    requires AllOpsValid(items) && i < |items| && items[i].Code?
    ensures Size(items[..i]) <= Size(items[..i + 1]) <= Size(items) <= |Program(items)|
    ensures ItemBytes(Program(items), items, i) ==
      EncodeAll(LowerOp(items[i].op, Size(items[..i]), Labels(items), PlaceOf(items, i, Size(items), |Prints(items)|)))
  {
    hide Labels, Size, Literals, Prints, EncodeAll, LowerAll, LowerOp, PlaceOf, BytesOf;
    var n, labels, end, placed := |items|, Labels(items), Size(items), |Prints(items)|;
    var upTo, all := LowerAll(items, i + 1, labels, end, placed), LowerAll(items, n, labels, end, placed);
    LowerPrefix(items, i + 1, n, labels, end, placed);
    assert all == upTo + all[|upTo|..];
    EncodeConcat(upTo, all[|upTo|..]);
    BytesSize(items, i, labels, end, placed);
    BytesSize(items, i + 1, labels, end, placed);
    BytesSize(items, n, labels, end, placed);
    BytesNext(items, i, labels, end, placed);
    assert items[..n] == items;
    CutOut(Bytes(items, i, labels, end, placed),
           EncodeAll(LowerOp(items[i].op, Size(items[..i]), labels, PlaceOf(items, i, end, placed))),
           EncodeAll(all[|upTo|..]), BytesOf(Literals(items)));
  }

  lemma CutOut(a: seq<Byte>, b: seq<Byte>, c: seq<Byte>, d: seq<Byte>)
    ensures (a + b + c + d)[|a|..|a| + |b|] == b
  {
  }

  /** A jump at `at` with this displacement lands where the first label of that name stands. */
  ghost predicate LandsOn(items: seq<Item>, at: nat, disp: nat, name: string) {
    exists j: nat :: j < |items| && items[j].Label? && Cut(items[j].name, 31) == name
      && (forall h :: 0 <= h < j && items[h].Label? ==> Cut(items[h].name, 31) != name)
      && (at + 5 + disp) % TWO32 == Size(items[..j])
  }

  /** Behind the code of the program, at address `addr`, are the characters of a text. */
  ghost predicate HasCharacters(program: seq<Byte>, end: nat, addr: nat, text: string) {
    && CODE_BASE + end <= addr && addr - CODE_BASE + |text| <= |program|
    && forall k :: 0 <= k < |text| ==> program[addr - CODE_BASE + k] == text[k] as nat % 256
  }

  /** The quoted text of the line, with a line break for `println`, lies at `addr`. */
  ghost predicate PrintsText(items: seq<Item>, orig: string, w: Words, addr: nat)
    requires AllOpsValid(items)
  {
    forall text :: Quotes(orig, text) ==> HasCharacters(Program(items), Size(items), addr, text + if w.a0 == "println" then "\n" else "")
  }

  /** The items of a source that is assembled. */
  ghost predicate Assembles(lines: seq<string>, items: seq<Item>) {
    items == ParseAll(lines) && AllOpsValid(items) && Accepts(items)
  }

  /** The bytes of item `i` disassemble to what a line with these words says: jumps go to the named
      label, prints have their text. */
  ghost predicate Tells(items: seq<Item>, i: nat, orig: string, w: Words, listing: seq<Ins>, disp: nat, addr: nat)
    requires AllOpsValid(items) && i < |items|
  {
    && Disassemble(ItemBytes(Program(items), items, i)) == Some(listing)
    && Legal(orig, w) && Says(orig, w, listing, disp, addr)
    && ((w.a0 == "jmp" || w.a0 == "call") && w.a1.Some? ==> LandsOn(items, Size(items[..i]), disp, w.a1.value))
    && (w.a0 == "print" || w.a0 == "println" ==> PrintsText(items, orig, w, addr))
  }

  /** The code of every line with an instruction disassembles to what the line spells: its mnemonic
      with its registers and numbers, the system calls of sleep, exit and print, a jump to the named
      label, and the text of a print. */
  lemma LineCode(lines: seq<string>, items: seq<Item>, i: nat) returns (orig: string, w: Words, listing: seq<Ins>, disp: nat, addr: nat)
    requires Assembles(lines, items) && i < |items| && items[i].Code?
    ensures i < |lines| && Reads(lines[i], orig, w) && Tells(items, i, orig, w, listing, disp, addr)
  {
    hide ParseLine, Instruction, Size, Labels, Literals, Prints, Bytes, EncodeAll, Disassemble, LowerOp, Reads, Small, Legal, Says, OpOf,
      LandsOn, PrintsText, ItemBytes, Quotes, Displacement, Target, AllShown, Program, Accepts, Op.Valid;
    var op, at, place := items[i].op, Size(items[..i]), PlaceOf(items, i, Size(items), |Prints(items)|);
    orig, w := LineRead(lines[i]);
    OpRead(orig, w);
    ItemCode(items, i);
    DisassembleShown(LowerOp(op, at, Labels(items), place));
    PlaceIs(items, i);
    OpSays(orig, w, op, at, Labels(items), place);
    listing := AllShown(LowerOp(op, at, Labels(items), place));
    disp := if op.Jump? then Displacement(Target(Labels(items), op.target), at) else 0;
    addr := place.addr;
    OpKinds(orig, w, op);
    if op.Jump? { JumpPlaced(items, i, disp); }
    if op.Print? { PrintPlaced(items, i, orig, w); }
  }

  /** The code of item `i` says what a line says. */
  ghost predicate Told(line: string, items: seq<Item>, i: nat)
    requires AllOpsValid(items) && i < |items|
  {
    exists orig, w, listing, disp, addr :: Reads(line, orig, w) && Tells(items, i, orig, w, listing, disp, addr)
  }

  /** The program says what its source says, line by line. */
  ghost predicate AsWritten(lines: seq<string>, items: seq<Item>)
    requires AllOpsValid(items)
  {
    |lines| == |items| && forall i: nat :: i < |items| && items[i].Code? ==> Told(lines[i], items, i)
  }

  /** What compiling emits for an accepted source, `Program(Parse(src))`, says what the source says. */
  lemma SourceCode(src: string)
    requires Accepts(Parse(src))
    ensures AllOpsValid(Parse(src)) && AsWritten(Lines(src), Parse(src))
  {
    hide Reads, Tells, Accepts;
    var lines, items := Lines(src), Parse(src);
    AllParsedValid(lines);
    forall i: nat | i < |items| && items[i].Code?
      ensures Told(lines[i], items, i)
    {
      var orig, w, listing, disp, addr := LineCode(lines, items, i);
      assert Reads(lines[i], orig, w) && Tells(items, i, orig, w, listing, disp, addr);
    }
  }

  lemma OpKinds(orig: string, w: Words, op: Op)
    requires Legal(orig, w) && OpOf(orig, w, op)
    ensures op.Jump? <==> w.a0 == "jmp" || w.a0 == "call"
    ensures op.Jump? ==> w.a1 == Some(op.target)
    ensures op.Print? <==> w.a0 == "print" || w.a0 == "println"
    ensures op.Print? ==> Quotes(orig, op.text) && op.newline == (w.a0 == "println")
  {
    hide Numeral, NumeralValue, Quotes, RegisterName, ByteName;
  }

  lemma PlaceIs(items: seq<Item>, i: nat)
    requires AllOpsValid(items) && Accepts(items) && i < |items|
    ensures IsPrint(items[i]) ==> PlaceOf(items, i, Size(items), |Prints(items)|).len == |items[i].op.text| + if items[i].op.newline then 1 else 0
  {
    hide Size, Prints, Labels, Literals;
    if IsPrint(items[i]) { PrintPlace(items, i); }
  }

  lemma JumpPlaced(items: seq<Item>, i: nat, disp: nat)
    requires AllOpsValid(items) && Accepts(items) && i < |items| && items[i].Code? && items[i].op.Jump?
    requires disp == Displacement(Target(Labels(items), items[i].op.target), Size(items[..i]))
    ensures LandsOn(items, Size(items[..i]), disp, items[i].op.target)
  {
    hide Size, Labels, Displacement, Target, Accepts;
    var j := JumpLands(items, i);
  }

  lemma {:induction false} CharactersAre(text: string)
    ensures forall k :: 0 <= k < |text| ==> BytesOf(text)[k] == text[k] as nat % 256
  {
    if text != [] { CharactersAre(text[..|text| - 1]); }
  }

  lemma PrintPlaced(items: seq<Item>, i: nat, orig: string, w: Words)
    requires AllOpsValid(items) && Accepts(items) && i < |items| && IsPrint(items[i])
    requires Quotes(orig, items[i].op.text) && items[i].op.newline == (w.a0 == "println")
    ensures PrintsText(items, orig, w, PlaceOf(items, i, Size(items), |Prints(items)|).addr)
  {
    hide Size, Prints, Labels, Literals, Program, Accepts, Quotes, BytesOf, PlaceOf, Op.Valid;
    PrintsOwnText(items, i);
    CharactersAre(Literal(items[i]));
    var p, full := PlaceOf(items, i, Size(items), |Prints(items)|), Literal(items[i]);
    assert HasCharacters(Program(items), Size(items), p.addr, full) by {
      assert forall k :: 0 <= k < |full| ==> Program(items)[p.addr - CODE_BASE..p.addr - CODE_BASE + p.len][k] == full[k] as nat % 256;
    }
    forall text | Quotes(orig, text)
      ensures text == items[i].op.text
    {
      QuotesOne(orig, text);
      QuotesOne(orig, items[i].op.text);
    }
  }
}

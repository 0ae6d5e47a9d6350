/** How the assembler of kernel/src/elf/asm.c reads its source: lines, labels and instructions. */
module AsmText {
  import opened AsmCode

  /** What a line says: machine instructions directly, or an operation made of several. */
  datatype Op =
    | Simple(m: Machine)
    | Sleep(ticks: nat)
    | Exit
    | Print(text: string, newline: bool)
    | Jump(call_: bool, target: string)
  {
    predicate Valid() {
      match this
      case Simple(m) => m.Valid() && !m.Relative?
      case Sleep(ticks) => ticks < TWO64
      case Exit => true
      case Print(text, newline) => |text| < 120
      case Jump(call_, target) => true
    }

    function Size(): nat {
      match this
      case Simple(m) => m.Size()
      case Sleep(ticks) => 22
      case Exit => 12
      case Print(text, newline) => 32
      case Jump(call_, target) => 5
    }
  }

  datatype Item = Blank | Label(name: string) | Code(op: Op) | Bad

  // ----- Lines

  function Find(s: string, c: char): (k: nat)
    ensures k <= |s|
    ensures c !in s[..k] && (k < |s| ==> s[k] == c)
  {
    if s == [] || s[0] == c then 0 else 1 + Find(s[1..], c)
  }

  function Lines(src: string): seq<string>
    decreases |src|
  {
    if src == [] then []
    else
      var k := Find(src, '\n');
      [src[..k]] + if k < |src| then Lines(src[k + 1..]) else []
  }

  function StripComment(s: string): string {
    if s == [] || s[0] == ';' || s[0] == '#' then [] else [s[0]] + StripComment(s[1..])
  }

  function TrimRight(s: string): string {
    if s != [] && s[|s| - 1] in {' ', '\t', '\r', '\n'} then TrimRight(s[..|s| - 1]) else s
  }

  function TrimLeft(s: string): string {
    if s != [] && s[0] in {' ', '\t'} then TrimLeft(s[1..]) else s
  }

  function Trim(s: string): string {
    TrimLeft(TrimRight(s))
  }

  function Lower(s: string): string {
    if s == [] then [] else [if 'A' <= s[0] <= 'Z' then s[0] - 'A' + 'a' else s[0]] + Lower(s[1..])
  }

  /** `strncpy` into a buffer of `n + 1` characters. */
  function Cut(s: string, n: nat): string {
    if |s| <= n then s else s[..n]
  }

  // ----- Operands

  function Digit(c: char, base: nat): int {
    if '0' <= c <= '9' then c as int - '0' as int
    else if base == 16 && 'a' <= c <= 'f' then 10 + (c as int - 'a' as int)
    else if base == 16 && 'A' <= c <= 'F' then 10 + (c as int - 'A' as int)
    else -1
  }

  /** `parse_u64` from digit `i` on; values wrap at 64 bits. */
  function Digits(s: string, base: nat, v: nat): (n: Option<nat>)
    requires v < TWO64
    ensures n.Some? ==> n.value < TWO64
  {
    if s == [] then Some(v)
    else if Digit(s[0], base) < 0 then None
    else Digits(s[1..], base, (v * base + Digit(s[0], base)) % TWO64)
  }

  function Number(s: string): (n: Option<nat>)
    ensures n.Some? ==> n.value < TWO64
  {
    if s == [] then None
    else if |s| >= 2 && s[0] == '0' && (s[1] == 'x' || s[1] == 'X') then Digits(s[2..], 16, 0)
    else Digits(s, 10, 0)
  }

  const REGISTERS: seq<string> := ["rax", "rcx", "rdx", "rbx", "rsp", "rbp", "rsi", "rdi", "r8", "r9", "r10", "r11", "r12", "r13", "r14", "r15"]

  function Position(names: seq<string>, name: string): (k: nat)
    ensures k <= |names|
    ensures name !in names[..k] && (k < |names| ==> names[k] == name)
  {
    if names == [] || names[0] == name then 0 else 1 + Position(names[1..], name)
  }

  function Escape(e: char): char {
    if e == 'n' then '\n' else if e == 't' then '\t' else if e == 'r' then '\r' else e
  }

  /** The text up to the closing quote, or nothing when it is missing or the text is too long. */
  function Quoted(s: string, n: nat): (t: Option<string>)
    requires n <= 119
    ensures t.Some? ==> n + |t.value| <= 119
    decreases |s|
  {
    if s == [] then None
    else if s[0] == '"' then Some([])
    else
      var escaped := s[0] == '\\' && |s| > 1;
      var c := if escaped then Escape(s[1]) else s[0];
      var rest := if escaped then s[2..] else s[1..];
      if n + 1 >= 120 then None else
      match Quoted(rest, n + 1)
      case None => None
      case Some(t) => Some([c] + t)
  }

  /** `parse_quoted_text` */
  function QuotedText(line: string): (t: Option<string>)
    ensures t.Some? ==> |t.value| < 120
  {
    var q := Find(line, '"');
    if q == |line| then None else Quoted(line[q + 1..], 0)
  }

  // ----- Instructions

  /** A line split at its first space and the first comma after it. */
  datatype Words = Words(a0: string, a1: Option<string>, a2: Option<string>)

  function Split(work: string): Words {
    var sp := Find(work, ' ');
    if sp == |work| then Words(work, None, None)
    else
      var rest := TrimLeft(work[sp + 1..]);
      var comma := Find(rest, ',');
      Words(work[..sp], Some(Trim(rest[..comma])), if comma == |rest| then None else Some(Trim(TrimLeft(rest[comma + 1..]))))
  }

  function FixedOp(name: string): Option<Machine> {
    if name == "nop" then Some(One(0x90))
    else if name == "ret" then Some(One(0xC3))
    else if name == "hlt" then Some(One(0xF4))
    else if name == "cli" then Some(One(0xFA))
    else if name == "sti" then Some(One(0xFB))
    else if name == "int3" then Some(One(0xCC))
    else if name == "ud2" then Some(Two(0x0B))
    else if name == "syscall" then Some(Two(0x05))
    else if name == "int80" then Some(Interrupt(0x80))
    else None
  }

  function Instruction(orig: string, w: Words): Item {
    if FixedOp(w.a0).Some? then Code(Simple(FixedOp(w.a0).value))
    else if w.a0 == "sleep" && w.a1.Some? then
      match Number(w.a1.value) case None => Bad case Some(ticks) => Code(Sleep(ticks))
    else if w.a0 == "exit" then Code(Exit)
    else if w.a0 == "print" || w.a0 == "println" then
      match QuotedText(orig) case None => Bad case Some(text) => Code(Print(text, w.a0 == "println"))
    else if w.a0 == "int" && w.a1.Some? then
      match Number(w.a1.value) case None => Bad case Some(v) => if v > 0xFF then Bad else Code(Simple(Interrupt(v)))
    else if w.a0 == "mov" && w.a1.Some? && w.a2.Some? then
      match Number(w.a2.value)
      case None => Bad
      case Some(imm) =>
        var reg := Position(REGISTERS, w.a1.value);
        if reg == |REGISTERS| then Bad else Code(Simple(Move(reg, imm)))
    else if (w.a0 == "jmp" || w.a0 == "call") && w.a1.Some? then Code(Jump(w.a0 == "call", w.a1.value))
    else Bad
  }

  /** One line of the source. */
  function ParseLine(raw: string): Item {
    var line := Trim(StripComment(raw));
    if line == [] then Blank
    else if line[|line| - 1] == ':' then
      var name := Trim(line[..|line| - 1]);
      if name == [] then Blank else Label(name)
    else Instruction(Cut(line, 127), Split(Lower(Cut(line, 127))))
  }

  function ParseAll(lines: seq<string>): (items: seq<Item>)
    ensures |items| == |lines| && forall i :: 0 <= i < |lines| ==> items[i] == ParseLine(lines[i])
  {
    if lines == [] then [] else [ParseLine(lines[0])] + ParseAll(lines[1..])
  }

  function Parse(src: string): seq<Item> {
    ParseAll(Lines(src))
  }

  /** Everything the parser lets through has an encoding. */
  lemma ParsedIsValid(raw: string)
    ensures ParseLine(raw).Code? ==> ParseLine(raw).op.Valid()
  {
    hide Instruction, Trim, StripComment, Split, Lower, Cut;
    forall orig: string, w: Words
      ensures Instruction(orig, w).Code? ==> Instruction(orig, w).op.Valid()
    {
      InstructionIsValid(orig, w);
    }
  }

  lemma InstructionIsValid(orig: string, w: Words)
    ensures Instruction(orig, w).Code? ==> Instruction(orig, w).op.Valid()
  {
    hide Number, QuotedText, Position;
  }

  // ----- Names as written

  /** The operand of the line before the parser changes its case. */
  function Written(raw: string): string {
    var w := Split(Cut(Trim(StripComment(raw)), 127));
    if w.a1.Some? then w.a1.value else []
  }

  lemma {:induction false} LowerAt(s: string)
    ensures |Lower(s)| == |s|
    ensures forall i :: 0 <= i < |s| ==> Lower(s)[i] == if 'A' <= s[i] <= 'Z' then s[i] - 'A' + 'a' else s[i]
  {
    if s != [] { LowerAt(s[1..]); }
  }

  lemma LowerPart(s: string, i: nat, j: nat)
    requires i <= j <= |s|
    ensures |Lower(s)| == |s| && Lower(s[i..j]) == Lower(s)[i..j]
  {
    LowerAt(s);
    LowerAt(s[i..j]);
  }

  /** A name keeps its letters exactly when it has no capital. */
  lemma KeepsCase(s: string)
    ensures Lower(s) == s <==> forall i :: 0 <= i < |s| ==> !('A' <= s[i] <= 'Z')
  {
    LowerAt(s);
  }

  lemma {:induction false} LowerFind(s: string, c: char)
    requires !('A' <= c <= 'Z') && !('a' <= c <= 'z')
    ensures Find(Lower(s), c) == Find(s, c)
  {
    LowerAt(s);
    if s != [] {
      LowerFind(s[1..], c);
      assert Lower(s)[1..] == Lower(s[1..]);
    }
  }

  lemma {:induction false} LowerTrimLeft(s: string)
    ensures TrimLeft(Lower(s)) == Lower(TrimLeft(s))
  {
    LowerAt(s);
    if s != [] {
      LowerTrimLeft(s[1..]);
      assert Lower(s)[1..] == Lower(s[1..]);
    }
  }

  lemma {:induction false} LowerTrimRight(s: string)
    ensures TrimRight(Lower(s)) == Lower(TrimRight(s))
  {
    LowerAt(s);
    if s != [] {
      LowerTrimRight(s[..|s| - 1]);
      LowerPart(s, 0, |s| - 1);
    }
  }

  lemma LowerTrim(s: string)
    ensures Trim(Lower(s)) == Lower(Trim(s))
  {
    LowerTrimRight(s);
    LowerTrimLeft(TrimRight(s));
  }

  /** The words of the lower-cased line are the lower-cased words. */
  lemma LowerSplit(work: string)
    ensures Split(Lower(work)).a0 == Lower(Split(work).a0)
    ensures Split(Lower(work)).a1.Some? <==> Split(work).a1.Some?
    ensures Split(work).a1.Some? ==> Split(Lower(work)).a1.value == Lower(Split(work).a1.value)
  {
    hide Lower, Find, TrimLeft, Trim;
    LowerAt(work);
    LowerFind(work, ' ');
    var sp := Find(work, ' ');
    if sp < |work| {
      LowerPart(work, 0, sp);
      LowerPart(work, sp + 1, |work|);
      assert work[sp + 1..|work|] == work[sp + 1..] && Lower(work)[sp + 1..|work|] == Lower(work)[sp + 1..];
      LowerTrimLeft(work[sp + 1..]);
      var rest := TrimLeft(work[sp + 1..]);
      LowerFind(rest, ',');
      LowerPart(rest, 0, Find(rest, ','));
      LowerTrim(rest[..Find(rest, ',')]);
      assert Find(Lower(rest), ',') == Find(rest, ',') && TrimLeft(Lower(work)[sp + 1..]) == Lower(rest);
    }
  }

  /** The target of a jump is what the line says, in lower case. */
  lemma JumpTarget(raw: string)
    requires ParseLine(raw).Code? && ParseLine(raw).op.Jump?
    ensures ParseLine(raw).op.target == Lower(Written(raw))
  {
    hide Split, Lower, Trim, StripComment, FixedOp, Number, QuotedText, Position;
    LowerSplit(Cut(Trim(StripComment(raw)), 127));
  }
}

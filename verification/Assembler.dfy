/** The two passes of `compile_source` in kernel/src/elf/asm.c over its code buffer. */
module Assembler {
  import opened AsmCode
  import opened AsmText
  import opened AsmProgram

  function ByteOf(c: char): Byte {
    (c as int) % 256
  }

  function BytesOf(s: string): (bs: seq<Byte>)
    ensures |bs| == |s|
  {
    if s == [] then [] else BytesOf(s[..|s| - 1]) + [ByteOf(s[|s| - 1])]
  }

  predicate PrintFits(litTotal: nat, prints: nat, len: nat, pass: nat) {
    if pass == 0 then litTotal + len <= MAX_CODE else prints < MAX_PRINTS
  }

  /** What the instruction's branch checks in either pass. */
  predicate OpFits(op: Op, len: nat, litTotal: nat, prints: nat, labels: seq<LabelDef>, pass: nat) {
    && len + op.Size() <= MAX_CODE
    && (op.Print? ==> PrintFits(litTotal, prints, |Literal(Code(op))|, pass))
    && (pass == 1 ==> JumpFits(Code(op), labels))
  }

  function PrintOf(op: Op, len: nat): seq<PrintRef> {
    if op.Print? then [PrintRef(len + 12, len + 22, op.text, op.newline)] else []
  }

  class Assembler {
    const code: array<Byte>
    var len: nat
    var labels: seq<LabelDef>
    var prints: seq<PrintRef>
    var litTotal: nat

    constructor ()
      ensures Valid() && fresh(code) && len == 0 && labels == [] && prints == [] && litTotal == 0
    {
      code := new Byte[MAX_CODE](_ => 0);
      len, labels, prints, litTotal := 0, [], [], 0;
    }

    ghost predicate Valid()
      reads this
    {
      code.Length == MAX_CODE && len <= MAX_CODE
    }

    ghost function Out(): seq<Byte>
      requires Valid()
      reads this, code
    {
      code[..len]
    }

    // ----- Bytes

    /** `n` bytes at `off`, least significant first: `wr_u64_le` and the bodies of `emit_u32` and `emit_u64`. */
    method Write(off: nat, v: nat, n: nat)
      requires Valid() && off + n <= MAX_CODE
      modifies code
      ensures code[..] == old(code[..off]) + Little(v, n) + old(code[off + n..])
    {
      var rest := v;
      ghost var done: seq<Byte> := [];
      for i := 0 to n
        invariant |done| == i && done + Little(rest, n - i) == Little(v, n)
        invariant code[..] == old(code[..off]) + done + old(code[off + i..])
      {
        code[off + i] := rest % 256;
        done := done + [rest % 256];
        rest := rest / 256;
      }
    }

    method EmitU8(v: Byte) returns (ok: bool)
      requires Valid()
      modifies this`len, code
      ensures Valid() && (ok <==> old(len) + 1 <= MAX_CODE)
      ensures ok ==> Out() == old(Out()) + [v]
    {
      if len >= MAX_CODE { return false; }
      code[len] := v;
      len := len + 1;
      ok := true;
    }

    /** `emit_u32` and `emit_u64` */
    method EmitWord(v: nat, n: nat) returns (ok: bool)
      requires Valid()
      modifies this`len, code
      ensures Valid() && (ok <==> old(len) + n <= MAX_CODE)
      ensures ok ==> Out() == old(Out()) + Little(v, n)
    {
      if len + n > MAX_CODE { return false; }
      Write(len, v, n);
      len := len + n;
      ok := true;
    }

    method EmitMov(reg: nat, imm: nat) returns (ok: bool)
      requires Valid() && Move(reg, imm).Valid()
      modifies this`len, code
      ensures Valid() && (ok <==> old(len) + 10 <= MAX_CODE)
      ensures ok ==> Out() == old(Out()) + Encode(Move(reg, imm))
    {
      ok := EmitU8(if reg >= 8 then 0x49 else 0x48);
      if !ok { return; }
      ok := EmitU8(0xB8 + reg % 8);
      if !ok { return; }
      ok := EmitWord(imm, 8);
    }

    /** The fixed instructions and `int`: one or two bytes; `mov`: ten. */
    method EmitSimple(m: Machine) returns (ok: bool)
      requires Valid() && m.Valid() && !m.Relative?
      modifies this`len, code
      ensures Valid() && (ok <==> old(len) + m.Size() <= MAX_CODE)
      ensures ok ==> Out() == old(Out()) + Encode(m)
    {
      match m {
        case One(op) => ok := EmitU8(op);
        case Two(op) =>
          ok := EmitU8(0x0F);
          if ok { ok := EmitU8(op); }
        case Interrupt(vector) =>
          ok := EmitU8(0xCD);
          if ok { ok := EmitU8(vector); }
        case Move(reg, imm) => ok := EmitMov(reg, imm);
      }
    }

    // ----- Instructions

    method EmitSleep(ticks: nat) returns (ok: bool)
      requires Valid() && ticks < TWO64
      modifies this`len, code
      ensures Valid() && (ok <==> old(len) + 22 <= MAX_CODE)
      ensures ok ==> Out() == old(Out()) + Encode(Move(0, 5)) + Encode(Move(7, ticks)) + Encode(Interrupt(0x80))
    {
      hide Encode;
      ok := EmitMov(0, 5);
      if !ok { return; }
      ok := EmitMov(7, ticks);
      if !ok { return; }
      ok := EmitSimple(Interrupt(0x80));
    }

    method EmitExit() returns (ok: bool)
      requires Valid()
      modifies this`len, code
      ensures Valid() && (ok <==> old(len) + 12 <= MAX_CODE)
      ensures ok ==> Out() == old(Out()) + Encode(Move(0, 2)) + Encode(Interrupt(0x80))
    {
      hide Encode;
      ok := EmitMov(0, 2);
      if !ok { return; }
      ok := EmitSimple(Interrupt(0x80));
    }

    /** `jmp` and `call`: the displacement is filled in by the second pass. */
    method EmitJump(call_: bool, target: string, pass: nat) returns (ok: bool)
      requires Valid() && forall i :: 0 <= i < |labels| ==> labels[i].off <= MAX_CODE
      modifies this`len, code
      ensures Valid()
      ensures ok <==> old(len) + 5 <= MAX_CODE && (pass == 1 ==> FindLabel(labels, target) < |labels|)
      ensures ok ==> len == old(len) + 5
      ensures ok && pass == 1 ==> Out() == old(Out()) + Encode(Relative(call_, Displacement(Target(labels, target), old(len))))
    {
      hide Little, FindLabel;
      ok := EmitU8(if call_ then 0xE8 else 0xE9);
      if !ok { return; }
      ghost var opened_ := Out();
      var dispAt := len;
      ok := EmitWord(0, 4);
      if !ok { return; }
      if pass == 1 {
        var k := FindLabel(labels, target);
        if k == |labels| { return false; }
        Write(dispAt, (labels[k].off - (dispAt + 4)) % TWO32, 4);
        assert code[..dispAt] == opened_;
        assert Out() == opened_ + Little((labels[k].off - (dispAt + 4)) % TWO32, 4);
      }
    }

    /** `print` and `println`: address and length of the text stay zero until the literals are placed. */
    method EmitPrint(text: string, newline: bool, pass: nat) returns (ok: bool)
      requires Valid() && |text| < 120
      modifies this`len, this`prints, this`litTotal, code
      ensures Valid()
      ensures ok <==> old(len) + 32 <= MAX_CODE && PrintFits(old(litTotal), |old(prints)|, |text| + (if newline then 1 else 0), pass)
      ensures ok ==> len == old(len) + 32
      ensures pass == 0 ==> prints == old(prints)
      ensures ok && pass == 0 ==> litTotal == old(litTotal) + |text| + (if newline then 1 else 0) && prints == old(prints)
      ensures ok && pass != 0 ==> litTotal == old(litTotal) && prints == old(prints) + [PrintRef(old(len) + 12, old(len) + 22, text, newline)]
      ensures ok && pass != 0 ==> Out() == old(Out()) + Encode(Move(0, 0)) + Encode(Move(7, 0)) + Encode(Move(6, 0)) + Encode(Two(0x05))
    {
      hide Encode;
      var fullLen := |text| + if newline then 1 else 0;
      if pass == 0 {
        if litTotal + fullLen > MAX_CODE { return false; }
        litTotal := litTotal + fullLen;
      } else if |prints| >= MAX_PRINTS {
        return false;
      }
      ok := EmitMov(0, 0);
      if !ok { return; }
      var rdiImmOff := len + 2;
      ok := EmitMov(7, 0);
      if !ok { return; }
      var rsiImmOff := len + 2;
      ok := EmitMov(6, 0);
      if !ok { return; }
      ok := EmitSimple(Two(0x05));
      if !ok { return; }
      if pass == 0 {
        Write(rsiImmOff, fullLen, 8);
      } else {
        prints := prints + [PrintRef(rdiImmOff, rsiImmOff, text, newline)];
      }
    }

    /** One instruction line. */
    method Instruction(op: Op, pass: nat) returns (ok: bool)
      requires Valid() && op.Valid() && forall i :: 0 <= i < |labels| ==> labels[i].off <= MAX_CODE
      modifies this`len, this`prints, this`litTotal, code
      ensures Valid()
      ensures ok <==> OpFits(op, old(len), old(litTotal), |old(prints)|, labels, pass)
      ensures ok ==> len == old(len) + op.Size()
      ensures pass == 0 ==> prints == old(prints)
      ensures ok && pass == 0 ==> litTotal == old(litTotal) + |Literal(Code(op))| && prints == old(prints)
      ensures ok && pass != 0 ==> litTotal == old(litTotal) && prints == old(prints) + PrintOf(op, old(len))
      ensures ok && pass == 1 ==> Out() == old(Out()) + EncodeAll(LowerOp(op, old(len), labels, Place(0, 0)))
    {
      hide Encode, EncodeAll, Target, Displacement, FindLabel;
      Emitted(op, len, labels);
      match op {
        case Simple(m) => ok := EmitSimple(m);
        case Sleep(ticks) => ok := EmitSleep(ticks);
        case Exit => ok := EmitExit();
        case Print(text, newline) => ok := EmitPrint(text, newline, pass);
        case Jump(call_, target) => ok := EmitJump(call_, target, pass);
      }
    }

    // ----- Passes

    /** The line loop of `compile_source`, first pass: offsets of labels, and sizes. */
    method FirstPass(lines: seq<string>) returns (ok: bool)
      requires Valid() && len == 0 && litTotal == 0 && labels == []
      modifies this, code
      ensures Valid() && prints == old(prints)
      ensures var items := ParseAll(lines); ok <==> FirstOk(items, |items|)
      ensures var items := ParseAll(lines); ok ==> len == Size(items) && litTotal == |Literals(items)| && labels == Labels(items)
    {
      hide ParseAll, Labels, Size, Literals, Prints, EncodeAll, LowerOp, ParseLine, FindLabel;
      ghost var items := ParseAll(lines);
      NothingYet(items);
      for k := 0 to |lines|
        invariant Valid() && prints == old(prints) && FirstOk(items, k)
        invariant len == Size(items[..k]) && litTotal == |Literals(items[..k])| && labels == Labels(items[..k])
      {
        Next(items, k);
        PassFails(items, k + 1);
        LabelOffsets(items, k);
        var item := ParseLine(lines[k]);
        ParsedIsValid(lines[k]);
        match item {
          case Blank =>
          case Label(name) =>
            if |labels| >= MAX_LABELS { return false; }
            if FindLabel(labels, name) < |labels| { return false; }
            labels := labels + [LabelDef(Cut(name, 31), len)];
          case Code(op) =>
            ok := Instruction(op, 0);
            if !ok { return; }
          case Bad => return false;
        }
      }
      assert items[..|items|] == items;
      ok := true;
    }

    /** Second pass: the instructions at the same offsets, with jumps resolved. */
    method SecondPass(lines: seq<string>, ghost end: nat) returns (ok: bool)
      requires Valid() && len == 0 && prints == [] && labels == Labels(ParseAll(lines)) && Size(ParseAll(lines)) <= MAX_CODE
      modifies this, code
      ensures Valid() && labels == old(labels)
      ensures var items := ParseAll(lines); ok <==> SecondOk(items, |items|)
      ensures AllOpsValid(ParseAll(lines))
      ensures var items := ParseAll(lines); ok ==> len == Size(items) && prints == Prints(items)
      ensures ok ==> Out() == Bytes(ParseAll(lines), |lines|, labels, end, 0)
    {
      hide ParseAll, Labels, Size, Literals, Prints, EncodeAll, LowerOp, ParseLine, FindLabel, Bytes, LowerAll;
      ghost var items := ParseAll(lines);
      NothingYet(items);
      AllParsedValid(lines);
      LabelOffsets(items, |items|);
      assert items[..|items|] == items;
      NoBytes(items, labels, end);
      for k := 0 to |lines|
        invariant Valid() && labels == old(labels) && SecondOk(items, k)
        invariant len == Size(items[..k]) && prints == Prints(items[..k])
        invariant Out() == Bytes(items, k, labels, end, 0)
      {
        Next(items, k);
        PassFails(items, k + 1);
        BytesNext(items, k, labels, end, 0);
        var item := ParseLine(lines[k]);
        match item {
          case Blank =>
          case Label(name) =>
          case Code(op) =>
            ok := Instruction(op, 1);
            if !ok { return; }
          case Bad => return false;
        }
      }
      ok := true;
    }

    /** `compile_source`: succeeds exactly on accepted sources, with their program. */
    method Compile(src: string) returns (ok: bool)
      requires Valid()
      modifies this, code
      ensures Valid()
      ensures ok <==> |src| + 1 <= MAX_SRC && Accepts(Parse(src))
      ensures AllOpsValid(Parse(src))
      ensures ok ==> Out() == Program(Parse(src))
    {
      hide ParseAll, Labels, Size, Literals, Prints, EncodeAll, LowerOp, ParseLine, FindLabel, Bytes, LowerAll, FirstOk, SecondOk, Accepts, BytesOf;
      ghost var items := Parse(src);
      AllParsedValid(Lines(src));
      PassesAccept(items);
      len, labels, prints, litTotal := 0, [], [], 0;
      if |src| + 1 > MAX_SRC { return false; }
      ok := FirstPass(Lines(src));
      if !ok { return; }
      if len + litTotal > MAX_CODE { return false; }
      len, prints, litTotal := 0, [], 0;
      ok := SecondPass(Lines(src), Size(items));
      if !ok { return; }
      ok := PlaceLiterals(items);
    }

    // ----- Literals

    /** The literal loop of `compile_source`: every text behind the code, its address and length
        into the instructions that print it. */
    method PlaceLiterals(ghost items: seq<Item>) returns (ok: bool)
      requires Valid() && AllOpsValid(items) && prints == Prints(items) && len == Size(items)
      requires Out() == Bytes(items, |items|, labels, len, 0)
      modifies this`len, code
      ensures Valid()
      ensures ok <==> Size(items) + |Literals(items)| <= MAX_CODE
      ensures ok ==> Out() == Bytes(items, |items|, labels, Size(items), |Prints(items)|) + BytesOf(Literals(items))
    {
      hide Bytes, Prints, Size, Literals, BytesOf, Little, PrintTexts, Patched, AllOpsValid;
      var litOff := 0;
      TextsStart(items);
      BytesSize(items, |items|, labels, len, 0);
      for i := 0 to |prints|
        invariant len == old(len) && litOff == |PrintTexts(prints, i)| && len + litOff <= MAX_CODE
        invariant code[..len] == Bytes(items, |items|, labels, len, i)
        invariant code[len..len + litOff] == BytesOf(PrintTexts(prints, i))
      {
        var pr := prints[i];
        var fullLen := |pr.text| + if pr.newline then 1 else 0;
        TextsNext(prints, i);
        TextsGrow(prints, i + 1);
        AllTexts(items);
        if len + litOff + fullLen > MAX_CODE { return false; }
        var addr := CODE_BASE + len + litOff;
        PatchPrint(items, labels, len, i);
        BytesOfText(PrintTexts(prints, i), pr);
        PatchWords(pr.addrOff - 12, addr, fullLen, litOff);
        PlaceText(pr, litOff, fullLen);
        litOff := litOff + fullLen;
      }
      AllTexts(items);
      len := len + litOff;
      ok := true;
    }

    /** The text of a print goes behind those already placed. */
    method PlaceText(pr: PrintRef, litOff: nat, fullLen: nat)
      requires Valid() && fullLen == |pr.text| + (if pr.newline then 1 else 0) && len + litOff + fullLen <= MAX_CODE
      modifies code
      ensures code[..len] == old(code[..len])
      ensures code[len..len + litOff + fullLen] == old(code[len..len + litOff]) + BytesOf(pr.text) + if pr.newline then [10] else []
    {
      hide BytesOf;
      ghost var now := code[..];
      WriteText(len + litOff, pr.text);
      ghost var texted := code[..];
      Overwritten(now, texted, len + litOff, BytesOf(pr.text));
      if pr.newline { Put(len + litOff + |pr.text|, ByteOf('\n')); }
      LiteralPlaced(now, texted, code[..], len, litOff, BytesOf(pr.text), if pr.newline then [10] else []);
    }

    method Put(off: nat, v: Byte)
      requires Valid() && off < MAX_CODE
      modifies code
      ensures code[..] == old(code[..off]) + [v] + old(code[off + 1..])
    {
      code[off] := v;
    }

    /** Address and length go into a print's instructions at `at`. */
    method PatchWords(at: nat, addr: nat, fullLen: nat, ghost litOff: nat)
      requires Valid() && at + 32 <= len && len + litOff <= MAX_CODE
      modifies code
      ensures code[..len] == Patched(old(code[..len]), at, addr, fullLen) && code[len..len + litOff] == old(code[len..len + litOff])
    {
      hide Little;
      Write(at + 12, addr, 8);
      Write(at + 22, fullLen, 8);
      assert code[..] == Patched(old(code[..]), at, addr, fullLen);
      PatchedPart(old(code[..]), len, at, addr, fullLen);
      ghost var was := old(code[..]);
      ghost var now := code[..];
      assert now[..len] == code[..len];
      assert now[len..][..litOff] == now[len..len + litOff];
      assert was[len..][..litOff] == was[len..len + litOff];
    }

    /** `memcpy` of a text. */
    method WriteText(off: nat, text: string)
      requires Valid() && off + |text| <= MAX_CODE
      modifies code
      ensures code[..] == old(code[..off]) + BytesOf(text) + old(code[off + |text|..])
    {
      for i := 0 to |text|
        invariant code[..] == old(code[..off]) + BytesOf(text[..i]) + old(code[off + i..])
      {
        TextNext(text, i);
        hide BytesOf;
        code[off + i] := ByteOf(text[i]);
      }
      assert text[..|text|] == text;
    }
  }

  lemma TextNext(text: string, i: nat)
    requires i < |text|
    ensures BytesOf(text[..i + 1]) == BytesOf(text[..i]) + [ByteOf(text[i])]
  {
    assert text[..i + 1][..i] == text[..i];
  }

  /** The texts of the first `i` prints, one after the other. */
  function PrintTexts(prints: seq<PrintRef>, i: nat): string
    requires i <= |prints|
  {
    if i == 0 then "" else PrintTexts(prints, i - 1) + prints[i - 1].text + if prints[i - 1].newline then "\n" else ""
  }

  lemma TextsStart(items: seq<Item>)
    ensures PrintTexts(Prints(items), 0) == "" && BytesOf("") == []
  {
  }

  lemma TextsNext(prints: seq<PrintRef>, i: nat)
    requires i < |prints|
    ensures PrintTexts(prints, i + 1) == PrintTexts(prints, i) + prints[i].text + if prints[i].newline then "\n" else ""
  {
  }

  lemma {:induction false} TextsGrow(prints: seq<PrintRef>, i: nat)
    requires i <= |prints|
    ensures |PrintTexts(prints, i)| <= |PrintTexts(prints, |prints|)|
    decreases |prints| - i
  {
    if i < |prints| { TextsGrow(prints, i + 1); }
  }

  lemma {:induction false} TextsPrefix(ps: seq<PrintRef>, qs: seq<PrintRef>, i: nat)
    requires i <= |ps| && ps <= qs
    ensures PrintTexts(ps, i) == PrintTexts(qs, i)
  {
    if i > 0 { TextsPrefix(ps, qs, i - 1); }
  }

  lemma {:induction false} AllTexts(items: seq<Item>)
    ensures PrintTexts(Prints(items), |Prints(items)|) == Literals(items)
  {
    if items != [] {
      var front, last := items[..|items| - 1], items[|items| - 1];
      AllTexts(front);
      TextsPrefix(Prints(front), Prints(items), |Prints(front)|);
    }
  }

  lemma BytesOfText(before: string, pr: PrintRef)
    ensures BytesOf(before + pr.text + if pr.newline then "\n" else "") == BytesOf(before) + BytesOf(pr.text) + if pr.newline then [10] else []
  {
    BytesOfConcat(before, pr.text);
    if pr.newline {
      BytesOfConcat(before + pr.text, "\n");
      assert BytesOf("\n") == BytesOf("") + [10];
    } else {
      assert before + pr.text + "" == before + pr.text;
    }
  }

  lemma {:induction false} BytesOfConcat(s: string, t: string)
    ensures BytesOf(s + t) == BytesOf(s) + BytesOf(t)
  {
    if t == "" {
      assert s + t == s;
    } else {
      BytesOfConcat(s, t[..|t| - 1]);
      assert (s + t)[..|s + t| - 1] == s + t[..|t| - 1];
    }
  }

  lemma NothingYet(items: seq<Item>)
    ensures items[..0] == [] && Size([]) == 0 && Literals([]) == "" && Labels([]) == [] && Prints([]) == []
  {
  }

  lemma NoBytes(items: seq<Item>, labels: seq<LabelDef>, end: nat)
    requires AllOpsValid(items)
    ensures Bytes(items, 0, labels, end, 0) == []
  {
  }

  lemma AllParsedValid(lines: seq<string>)
    ensures AllOpsValid(ParseAll(lines))
  {
    forall i | 0 <= i < |lines|
      ensures ParseLine(lines[i]).Code? ==> ParseLine(lines[i]).op.Valid()
    {
      ParsedIsValid(lines[i]);
    }
    hide ParseLine, Op.Valid;
  }

  lemma Overwritten(before: seq<Byte>, after: seq<Byte>, p: nat, t: seq<Byte>)
    requires p + |t| <= |before| && after == before[..p] + t + before[p + |t|..]
    ensures |after| == |before| && after[..p] == before[..p] && after[p..p + |t|] == t
  {
  }

  lemma LiteralPlaced(before: seq<Byte>, texted: seq<Byte>, after: seq<Byte>, n: nat, litOff: nat, t: seq<Byte>, nl: seq<Byte>)
    requires n + litOff + |t| + |nl| <= |before| == |texted| && texted[..n + litOff] == before[..n + litOff] && texted[n + litOff..n + litOff + |t|] == t
    requires after == texted[..n + litOff + |t|] + nl + texted[n + litOff + |t| + |nl|..]
    ensures after[..n] == before[..n]
    ensures after[n..n + litOff + |t| + |nl|] == before[n..n + litOff] + t + nl
  {
    assert texted[..n + litOff + |t|] == before[..n + litOff] + t;
    assert before[..n + litOff] == before[..n] + before[n..n + litOff];
    assert after[..n + litOff + |t| + |nl|] == before[..n] + (before[n..n + litOff] + t + nl);
  }

  lemma TextsBefore(items: seq<Item>, k: nat, i: nat)
    requires k < |items| && |Prints(items[..k])| == i
    ensures i <= |Prints(items)| && PrintTexts(Prints(items), i) == Literals(items[..k])
  {
    Grows(items, k, |items|);
    assert items[..|items|] == items;
    AllTexts(items[..k]);
    TextsPrefix(Prints(items[..k]), Prints(items), i);
  }

  lemma PrintInside(items: seq<Item>, k: nat)
    requires k < |items| && IsPrint(items[k])
    ensures Size(items[..k]) + 32 <= Size(items) && items[..|items|] == items
  {
    hide Prints, Literals, Labels, Size;
    Next(items, k);
    Grows(items, k + 1, |items|);
    assert items[..|items|] == items;
  }

  /** Placing print number `i`: two words of the code change. */
  lemma PatchPrint(items: seq<Item>, labels: seq<LabelDef>, end: nat, i: nat)
    requires AllOpsValid(items) && i < |Prints(items)| && end + |PrintTexts(Prints(items), i)| <= MAX_CODE
    ensures var pr, before := Prints(items)[i], Bytes(items, |items|, labels, end, i);
      && pr.addrOff >= 12 && pr.lenOff == pr.addrOff + 10 && pr.lenOff + 10 <= |before| && |pr.text| < 120
      && Bytes(items, |items|, labels, end, i + 1) ==
           Patched(before, pr.addrOff - 12, CODE_BASE + end + |PrintTexts(Prints(items), i)|, |pr.text| + if pr.newline then 1 else 0)
  {
    hide Bytes, Prints, Size, Literals, Patched, PrintTexts, Labels;
    var k := PrintAt(items, i);
    TextsBefore(items, k, i);
    BytesSize(items, |items|, labels, end, i);
    PrintInside(items, k);
    PatchUpTo(items, |items|, labels, end, k, i);
  }

  /** The bytes of an operation whose literal has no place yet. */
  lemma Emitted(op: Op, at: nat, labels: seq<LabelDef>)
    requires op.Valid()
    ensures EncodeAll(LowerOp(op, at, labels, Place(0, 0))) ==
      match op
      case Simple(m) => Encode(m)
      case Sleep(ticks) => Encode(Move(0, 5)) + Encode(Move(7, ticks)) + Encode(Interrupt(0x80))
      case Exit => Encode(Move(0, 2)) + Encode(Interrupt(0x80))
      case Print(text, newline) => Encode(Move(0, 0)) + Encode(Move(7, 0)) + Encode(Move(6, 0)) + Encode(Two(0x05))
      case Jump(call_, target) => Encode(Relative(call_, Displacement(Target(labels, target), at)))
  {
    hide Encode;
    match op
    case Simple(m) => EncodeOne(m);
    case Sleep(ticks) => EncodeThree(Move(0, 5), Move(7, ticks), Interrupt(0x80));
    case Exit => EncodeTwo(Move(0, 2), Interrupt(0x80));
    case Print(text, newline) => PrintBytes(Place(0, 0));
    case Jump(call_, target) => EncodeOne(Relative(call_, Displacement(Target(labels, target), at)));
  }

  // ----- What the program is

  /** Code and literals of an accepted source. */
  function Program(items: seq<Item>): seq<Byte>
    requires AllOpsValid(items)
  {
    Bytes(items, |items|, Labels(items), Size(items), |Prints(items)|) + BytesOf(Literals(items))
  }

  /** Read as machine code, the part before the literals is exactly the lowered instructions. */
  lemma DecodesToSource(items: seq<Item>)
    requires AllOpsValid(items)
    ensures Size(items) <= |Program(items)|
    ensures DecodeAll(Program(items)[..Size(items)]) == Some(LowerAll(items, |items|, Labels(items), Size(items), |Prints(items)|))
  {
    hide Labels, Size, Literals, Prints, EncodeAll, LowerAll, BytesOf, DecodeAll;
    var code := Bytes(items, |items|, Labels(items), Size(items), |Prints(items)|);
    BytesSize(items, |items|, Labels(items), Size(items), |Prints(items)|);
    assert items[..|items|] == items;
    assert Program(items)[..Size(items)] == code;
    DecodeAllEncodeAll(LowerAll(items, |items|, Labels(items), Size(items), |Prints(items)|));
  }

  /** A jump at `at` lands on the first label of its target's name: the offset where the item after
      that label starts, or the end of the code. */
  lemma JumpLands(items: seq<Item>, k: nat) returns (j: nat)
    requires AllOpsValid(items) && Accepts(items) && k < |items| && items[k].Code? && items[k].op.Jump?
    ensures j < |items| && items[j].Label? && Cut(items[j].name, 31) == items[k].op.target
    ensures forall i :: 0 <= i < j && items[i].Label? ==> Cut(items[i].name, 31) != items[k].op.target
    ensures var at := Size(items[..k]);
      (at + 5 + Displacement(Target(Labels(items), items[k].op.target), at)) % TWO32 == Size(items[..j]) <= Size(items)
  {
    var target := items[k].op.target;
    var n := FindLabel(Labels(items), target);
    assert JumpFits(items[k], Labels(items));
    j := LabelAt(items, n);
    Grows(items, j, |items|);
    assert items[..|items|] == items;
    forall i | 0 <= i < j && items[i].Label?
      ensures Cut(items[i].name, 31) != target
    {
      LabelBefore(items, i, j);
      var m := |Labels(items[..i])|;
      assert Labels(items)[m].name == Cut(items[i].name, 31);
    }
    hide Labels, Size, FindLabel;
    Wraps(Size(items[..j]), Size(items[..k]));
  }

  /** A jump reaches the label as written exactly when the name has no capital: the target is looked
      up in lower case, the label keeps its letters. */
  lemma JumpAsWritten(lines: seq<string>, k: nat, i: nat) returns (j: nat)
    requires var items := ParseAll(lines);
      && AllOpsValid(items) && Accepts(items) && k < |items| && items[k].Code? && items[k].op.Jump?
      && i < |items| && items[i] == Label(Written(lines[k]))
    ensures var items, at := ParseAll(lines), Size(ParseAll(lines)[..k]);
      && j < |items| && items[j].Label? && Cut(items[j].name, 31) == Lower(Written(lines[k]))
      && (at + 5 + Displacement(Target(Labels(items), items[k].op.target), at)) % TWO32 == Size(items[..j])
    ensures var w := Written(lines[k]); j == i <==> forall c :: 0 <= c < |w| ==> !('A' <= w[c] <= 'Z')
  {
    hide ParseLine, Labels, Size, Displacement, Lower, FindLabel;
    var items, w := ParseAll(lines), Written(lines[k]);
    JumpTarget(lines[k]);
    KeepsCase(w);
    LowerAt(w);
    j := JumpLands(items, k);
    if Lower(w) == w {
      assert |w| <= 31 && Cut(w, 31) == w;
      assert i >= j;
      if j < i {
        assert LabelFits(items, i);
        LabelBefore(items, j, i);
        KnownBefore(items, i, j);
      }
    } else if j == i {
      CutKeepsCase(w);
    }
  }

  lemma KnownBefore(items: seq<Item>, i: nat, j: nat)
    requires j < i < |items| && items[j].Label?
    ensures FindLabel(Labels(items[..i]), Cut(items[j].name, 31)) < |Labels(items[..i])|
  {
    hide FindLabel;
    LabelBefore(items, j, i);
    Grows(items, i, |items|);
    assert items[..|items|] == items;
    var table, n := Labels(items[..i]), |Labels(items[..j])|;
    assert table[n].name == Labels(items)[n].name == Cut(items[j].name, 31);
    assert forall m :: 0 <= m < FindLabel(table, table[n].name) ==> table[m].name != table[n].name;
  }

  lemma CutKeepsCase(w: string)
    requires Cut(w, 31) == Lower(w)
    ensures Lower(w) == w
  {
    LowerAt(w);
  }

  /** `jmp Foo` does not go to the label `Foo` before the `nop` but to `foo` behind it. */
  lemma JumpsElsewhere()
    ensures var items := ParseAll(["Foo:", "nop", "foo:", "jmp Foo"]);
      && items == [Label("Foo"), Code(Simple(One(0x90))), Label("foo"), Code(Jump(false, "foo"))]
      && Accepts(items) && Target(Labels(items), "foo") == 1
  {
    hide ParseLine, Labels, Size, Literals, Prints;
    LinesRead();
    var items := ParseAll(["Foo:", "nop", "foo:", "jmp Foo"]);
    assert items[0] == Label("Foo") && items[1] == Code(Simple(One(0x90))) && items[2] == Label("foo") && items[3] == Code(Jump(false, "foo"));
    assert items == [Label("Foo"), Code(Simple(One(0x90))), Label("foo"), Code(Jump(false, "foo"))];
    FourItems(items);
    Lookups();
    assert LabelFits(items, 0) && LabelFits(items, 1) && LabelFits(items, 2) && LabelFits(items, 3);
  }

  lemma Lookups()
    ensures FindLabel([LabelDef("Foo", 0)], "foo") == 1 && FindLabel([LabelDef("Foo", 0), LabelDef("foo", 1)], "foo") == 1
    ensures FindLabel([], "Foo") == 0
  {
    assert "Foo"[0] != "foo"[0];
    assert [LabelDef("Foo", 0), LabelDef("foo", 1)][1..] == [LabelDef("foo", 1)];
  }

  lemma LinesRead()
    ensures ParseLine("Foo:") == Label("Foo") && ParseLine("foo:") == Label("foo")
    ensures ParseLine("nop") == Code(Simple(One(0x90))) && ParseLine("jmp Foo") == Code(Jump(false, "foo"))
  {
    hide ParseLine;
    LabelRead("Foo");
    LabelRead("foo");
    assert "Foo" + ":" == "Foo:" && "foo" + ":" == "foo:";
    NopRead();
    JmpRead();
  }

  lemma NopRead()
    ensures ParseLine("nop") == Code(Simple(One(0x90)))
  {
    hide StripComment, Trim, Lower, Find;
    var line := "nop";
    PlainLine(line);
    LowerAt(line);
    assert Lower(line) == line && Cut(line, 127) == line;
    FindIs(line, ' ', 3);
  }

  lemma JmpRead()
    ensures ParseLine("jmp Foo") == Code(Jump(false, "foo"))
  {
    hide StripComment, Trim, Lower, Find, Split;
    PlainLine("jmp Foo");
    SplitJmp();
    JmpIs("jmp Foo", Words("jmp", Some("foo"), None));
  }

  lemma JmpIs(orig: string, w: Words)
    requires w == Words("jmp", Some("foo"), None)
    ensures Instruction(orig, w) == Code(Jump(false, "foo"))
  {
    hide Number, QuotedText, Position;
    assert w.a0[0] == 'j' && |w.a0| == 3;
  }

  lemma SplitJmp()
    ensures Split(Lower("jmp Foo")) == Words("jmp", Some("foo"), None)
  {
    hide StripComment, Trim, Lower, Find;
    LowerAt("jmp Foo");
    assert Lower("jmp Foo") == "jmp foo";
    FindIs("jmp foo", ' ', 3);
    PlainLine("foo");
    FindIs("foo", ',', 3);
    assert "jmp foo"[..3] == "jmp" && "jmp foo"[4..] == "foo" && "foo"[..3] == "foo";
    assert TrimLeft("foo") == "foo";
  }

  lemma LabelRead(name: string)
    requires |name| == 3 && forall i :: 0 <= i < 3 ==> 'A' <= name[i] <= 'z'
    ensures ParseLine(name + ":") == Label(name)
  {
    hide StripComment, Trim;
    PlainLine(name + ":");
    PlainLine(name);
    assert (name + ":")[..3] == name;
  }

  lemma PlainLine(s: string)
    requires s != [] && s[0] != ' ' && s[|s| - 1] != ' ' && ';' !in s && '#' !in s
    requires forall i :: 0 <= i < |s| ==> s[i] >= ' '
    ensures StripComment(s) == s && Trim(s) == s
  {
    StripPlain(s);
  }

  lemma {:induction false} StripPlain(s: string)
    requires ';' !in s && '#' !in s
    ensures StripComment(s) == s
  {
    if s != [] { StripPlain(s[1..]); }
  }

  lemma {:induction false} FindIs(s: string, c: char, k: nat)
    requires k <= |s| && c !in s[..k] && (k < |s| ==> s[k] == c)
    ensures Find(s, c) == k
  {
    if k > 0 {
      assert s[0] in s[..k] && s[1..][..k - 1] == s[..k][1..];
      FindIs(s[1..], c, k - 1);
    }
  }

  lemma FourItems(items: seq<Item>)
    requires items == [Label("Foo"), Code(Simple(One(0x90))), Label("foo"), Code(Jump(false, "foo"))]
    ensures Size(items) == 6 && Literals(items) == "" && Prints(items) == []
    ensures Labels(items[..0]) == [] && Labels(items[..2]) == [LabelDef("Foo", 0)]
    ensures Labels(items) == [LabelDef("Foo", 0), LabelDef("foo", 1)]
  {
    hide Size, Literals, Prints, Labels;
    NothingYet(items);
    Next(items, 0);
    Next(items, 1);
    Next(items, 2);
    Next(items, 3);
    assert items[..4] == items;
  }

  /** Read from the start of item `j` on, the code is exactly the instructions of the items from `j`. */
  lemma DecodesFrom(items: seq<Item>, j: nat)
    requires AllOpsValid(items) && j <= |items|
    ensures var all, before := LowerAll(items, |items|, Labels(items), Size(items), |Prints(items)|),
                               LowerAll(items, j, Labels(items), Size(items), |Prints(items)|);
      && Size(items[..j]) <= Size(items) <= |Program(items)| && before <= all
      && DecodeAll(Program(items)[Size(items[..j])..Size(items)]) == Some(all[|before|..])
  {
    hide Labels, Size, Literals, Prints, EncodeAll, LowerAll, BytesOf, DecodeAll;
    var n, labels, end, placed := |items|, Labels(items), Size(items), |Prints(items)|;
    var all, before := LowerAll(items, n, labels, end, placed), LowerAll(items, j, labels, end, placed);
    LowerPrefix(items, j, n, labels, end, placed);
    BytesSize(items, n, labels, end, placed);
    BytesSize(items, j, labels, end, placed);
    assert items[..n] == items && all == before + all[|before|..];
    EncodeConcat(before, all[|before|..]);
    assert Program(items)[Size(items[..j])..Size(items)] == EncodeAll(all[|before|..]);
    DecodeAllEncodeAll(all[|before|..]);
  }

  lemma {:induction false} LowerPrefix(items: seq<Item>, j: nat, n: nat, labels: seq<LabelDef>, end: nat, placed: nat)
    requires j <= n <= |items| && AllOpsValid(items)
    ensures LowerAll(items, j, labels, end, placed) <= LowerAll(items, n, labels, end, placed)
  {
    if j < n { LowerPrefix(items, j, n - 1, labels, end, placed); }
  }

  lemma Wraps(off: nat, at: nat)
    requires off <= MAX_CODE
    ensures (at + 5 + Displacement(off, at)) % TWO32 == off
  {
  }

  lemma {:induction false} LabelAt(items: seq<Item>, n: nat) returns (j: nat)
    requires n < |Labels(items)|
    ensures j < |items| && items[j].Label? && |Labels(items[..j])| == n
    ensures Labels(items)[n] == LabelDef(Cut(items[j].name, 31), Size(items[..j]))
  {
    var front := items[..|items| - 1];
    if n < |Labels(front)| {
      j := LabelAt(front, n);
      assert front[..j] == items[..j];
    } else {
      j := |items| - 1;
    }
  }

  /** Earlier labels come earlier in the table. */
  lemma LabelBefore(items: seq<Item>, i: nat, j: nat)
    requires i < j < |items| && items[i].Label?
    ensures |Labels(items[..i])| < |Labels(items[..j])| <= |Labels(items)|
    ensures Labels(items)[|Labels(items[..i])|].name == Cut(items[i].name, 31)
  {
    Next(items, i);
    Grows(items, i + 1, j);
    Grows(items, j, |items|);
    assert items[..|items|] == items;
    var table := Labels(items[..i + 1]);
    assert table[|table| - 1] == Labels(items)[|table| - 1];
  }

  /** What a print is given as address and length denotes its own text in the literal area, inside
      the program, and no two prints share a byte of it. */
  lemma PrintsOwnText(items: seq<Item>, k: nat)
    requires AllOpsValid(items) && Accepts(items) && k < |items| && IsPrint(items[k])
    ensures var p, text := PlaceOf(items, k, Size(items), |Prints(items)|), Literal(items[k]);
      && p.len == |text| && p.addr >= CODE_BASE + Size(items) && p.addr - CODE_BASE + p.len <= |Program(items)| <= MAX_CODE
      && Program(items)[p.addr - CODE_BASE..p.addr - CODE_BASE + p.len] == BytesOf(text)
    ensures forall j :: k < j < |items| && IsPrint(items[j]) ==>
      PlaceOf(items, k, Size(items), |Prints(items)|).addr + |Literal(items[k])| <= PlaceOf(items, j, Size(items), |Prints(items)|).addr
  {
    hide Bytes, BytesOf, Size, Literals, Prints, Labels;
    ProgramSize(items);
    PrintPlace(items, k);
    LiteralInside(items, k);
    var code, lits, a := Bytes(items, |items|, Labels(items), Size(items), |Prints(items)|), BytesOf(Literals(items)), |Literals(items[..k])|;
    assert (code + lits)[|code| + a..|code| + a + |Literal(items[k])|] == lits[a..a + |Literal(items[k])|];
    forall j | k < j < |items| && IsPrint(items[j])
      ensures PlaceOf(items, k, Size(items), |Prints(items)|).addr + |Literal(items[k])| <= PlaceOf(items, j, Size(items), |Prints(items)|).addr
    {
      PrintPlace(items, j);
      Next(items, k);
      Grows(items, k + 1, j);
    }
  }

  lemma ProgramSize(items: seq<Item>)
    requires AllOpsValid(items) && Accepts(items)
    ensures |Bytes(items, |items|, Labels(items), Size(items), |Prints(items)|)| == Size(items)
    ensures |Program(items)| == Size(items) + |Literals(items)| <= MAX_CODE
  {
    BytesSize(items, |items|, Labels(items), Size(items), |Prints(items)|);
    assert items[..|items|] == items;
  }

  lemma PrintPlace(items: seq<Item>, k: nat)
    requires AllOpsValid(items) && Accepts(items) && k < |items| && IsPrint(items[k])
    ensures PlaceOf(items, k, Size(items), |Prints(items)|) == Place(CODE_BASE + Size(items) + |Literals(items[..k])|, |Literal(items[k])|)
    ensures |Literals(items[..k])| + |Literal(items[k])| <= |Literals(items)|
  {
    hide Size, Literals, Prints, Labels;
    Next(items, k);
    Grows(items, k + 1, |items|);
    assert items[..|items|] == items;
    assert Size(items) + |Literals(items)| <= MAX_CODE;
  }

  /** The bytes of item `k`'s literal lie at their place among those of all literals. */
  ghost predicate HasText(lits: seq<Byte>, at: nat, text: seq<Byte>) {
    at + |text| <= |lits| && lits[at..at + |text|] == text
  }

  lemma {:induction false} LiteralInside(items: seq<Item>, k: nat)
    requires k < |items|
    ensures HasText(BytesOf(Literals(items)), |Literals(items[..k])|, BytesOf(Literal(items[k])))
  {
    hide BytesOf, Literals, Literal, HasText, Size, Prints, Labels;
    var front, last := items[..|items| - 1], items[|items| - 1];
    Next(items, |items| - 1);
    assert items[..|items|] == items;
    BytesOfConcat(Literals(front), Literal(last));
    TextInConcat(BytesOf(Literals(front)), BytesOf(Literal(last)));
    if k < |items| - 1 {
      LiteralInside(front, k);
      assert front[..k] == items[..k];
      TextInFront(BytesOf(Literals(front)), BytesOf(Literal(last)), |Literals(items[..k])|, BytesOf(Literal(items[k])));
    } else {
      assert items[..k] == front;
    }
  }

  lemma TextInConcat(xs: seq<Byte>, ys: seq<Byte>)
    ensures HasText(xs + ys, |xs|, ys)
  {
  }

  lemma TextInFront(xs: seq<Byte>, ys: seq<Byte>, at: nat, text: seq<Byte>)
    requires HasText(xs, at, text)
    ensures HasText(xs + ys, at, text)
  {
  }
}

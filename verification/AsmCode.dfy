/** Machine code of the assembler in kernel/src/elf/asm.c: the instructions it can emit, their bytes
    (instruction entries of chapters 3 and 4 of the Intel SDM, Volume 2) and how a processor reads
    them back. */
module AsmCode {

  type Byte = b: int | 0 <= b < 256 witness 0

  const TWO32: nat := 0x1_0000_0000
  const TWO64: nat := 0x1_0000_0000_0000_0000

  datatype Option<T> = None | Some(value: T)

  /** `One` is an instruction of a single byte, `Two` one that follows the 0F escape byte. */
  datatype Machine =
    | One(op: Byte)
    | Two(op: Byte)
    | Interrupt(vector: Byte)
    | Move(reg: nat, imm: nat)
    | Relative(call_: bool, disp: nat)
  {
    predicate Valid() {
      match this
      case One(op) => op in {0x90, 0xC3, 0xF4, 0xFA, 0xFB, 0xCC}
      case Two(op) => op in {0x0B, 0x05}
      case Interrupt(vector) => true
      case Move(reg, imm) => reg < 16 && imm < TWO64
      case Relative(call_, disp) => disp < TWO32
    }

    /** Bytes taken. */
    function Size(): (n: nat)
      ensures n > 0
    {
      match this
      case One(op) => 1
      case Two(op) => 2
      case Interrupt(vector) => 2
      case Move(reg, imm) => 10
      case Relative(call_, disp) => 5
    }
  }

  /** `n` bytes, least significant first. */
  function Little(v: nat, n: nat): (bs: seq<Byte>)
    ensures |bs| == n
  {
    if n == 0 then [] else [v % 256] + Little(v / 256, n - 1)
  }

  function Value(bs: seq<Byte>): nat {
    if bs == [] then 0 else bs[0] as int + 256 * Value(bs[1..])
  }

  function Pow256(n: nat): nat {
    if n == 0 then 1 else 256 * Pow256(n - 1)
  }

  lemma {:induction false} LittleValue(v: nat, n: nat)
    requires v < Pow256(n)
    ensures Value(Little(v, n)) == v
  {
    if n > 0 {
      LittleValue(v / 256, n - 1);
      assert Little(v, n)[1..] == Little(v / 256, n - 1);
    }
  }

  lemma Widths()
    ensures Pow256(4) == TWO32 && Pow256(8) == TWO64
  {
    assert Pow256(2) == 0x1_0000;
    assert Pow256(4) == 256 * (256 * Pow256(2));
    assert Pow256(6) == 256 * (256 * Pow256(4));
    assert Pow256(8) == 256 * (256 * Pow256(6));
  }

  function Encode(m: Machine): (bs: seq<Byte>)
    requires m.Valid()
    ensures |bs| == m.Size()
  {
    match m
    case One(op) => [op]
    case Two(op) => [0x0F, op]
    case Interrupt(vector) => [0xCD, vector]
    case Move(reg, imm) => [if reg >= 8 then 0x49 else 0x48, 0xB8 + reg % 8] + Little(imm, 8)
    case Relative(call_, disp) => [if call_ then 0xE8 else 0xE9] + Little(disp, 4)
  }

  /** The instruction at the start of the bytes. */
  function Decode(bs: seq<Byte>): Option<Machine> {
    if bs == [] then None
    else if One(bs[0]).Valid() then Some(One(bs[0]))
    else if |bs| < 2 then None
    else if bs[0] == 0x0F && Two(bs[1]).Valid() then Some(Two(bs[1]))
    else if bs[0] == 0xCD then Some(Interrupt(bs[1]))
    else if (bs[0] == 0x48 || bs[0] == 0x49) && 0xB8 <= bs[1] < 0xC0 && |bs| >= 10 then
      Some(Move(bs[1] as int - 0xB8 + if bs[0] == 0x49 then 8 else 0, Value(bs[2..10])))
    else if (bs[0] == 0xE8 || bs[0] == 0xE9) && |bs| >= 5 then Some(Relative(bs[0] == 0xE8, Value(bs[1..5])))
    else None
  }

  lemma DecodeEncode(m: Machine, rest: seq<Byte>)
    requires m.Valid()
    ensures Decode(Encode(m) + rest) == Some(m)
  {
    var bs := Encode(m) + rest;
    Widths();
    match m
    case One(op) =>
    case Two(op) =>
    case Interrupt(vector) =>
    case Move(reg, imm) =>
      assert bs[2..10] == Little(imm, 8);
      LittleValue(imm, 8);
    case Relative(call_, disp) =>
      assert bs[1..5] == Little(disp, 4);
      LittleValue(disp, 4);
  }

  predicate AllValid(ms: seq<Machine>) {
    forall i :: 0 <= i < |ms| ==> ms[i].Valid()
  }

  function EncodeAll(ms: seq<Machine>): seq<Byte>
    requires AllValid(ms)
  {
    if ms == [] then [] else Encode(ms[0]) + EncodeAll(ms[1..])
  }

  /** The whole byte sequence as instructions, if it is one. */
  function DecodeAll(bs: seq<Byte>): Option<seq<Machine>>
    decreases |bs|
  {
    if bs == [] then Some([]) else
    match Decode(bs)
    case None => None
    case Some(m) =>
      if m.Size() > |bs| then None else
      match DecodeAll(bs[m.Size()..])
      case None => None
      case Some(ms) => Some([m] + ms)
  }

  /** What is emitted is read back as the same instructions. */
  lemma {:induction false} DecodeAllEncodeAll(ms: seq<Machine>)
    requires AllValid(ms)
    ensures DecodeAll(EncodeAll(ms)) == Some(ms)
  {
    hide Encode, Decode;
    if ms != [] {
      var rest := EncodeAll(ms[1..]);
      DecodeEncode(ms[0], rest);
      assert (Encode(ms[0]) + rest)[ms[0].Size()..] == rest;
      DecodeAllEncodeAll(ms[1..]);
      assert [ms[0]] + ms[1..] == ms;
    }
  }

  lemma {:induction false} EncodeConcat(xs: seq<Machine>, ys: seq<Machine>)
    requires AllValid(xs) && AllValid(ys)
    ensures AllValid(xs + ys) && EncodeAll(xs + ys) == EncodeAll(xs) + EncodeAll(ys)
  {
    hide Encode, Machine.Valid;
    assert AllValid(xs + ys) by {
      forall i | 0 <= i < |xs + ys|
        ensures (xs + ys)[i].Valid()
      {
        if i >= |xs| { assert (xs + ys)[i] == ys[i - |xs|]; }
      }
    }
    if xs == [] {
      assert xs + ys == ys;
    } else {
      EncodeConcat(xs[1..], ys);
      assert (xs + ys)[1..] == xs[1..] + ys;
      assert EncodeAll(xs + ys) == Encode(xs[0]) + (EncodeAll(xs[1..]) + EncodeAll(ys));
    }
  }

  lemma EncodeOne(a: Machine)
    requires a.Valid()
    ensures EncodeAll([a]) == Encode(a)
  {
    assert [a][1..] == [];
  }

  lemma EncodeTwo(a: Machine, b: Machine)
    requires a.Valid() && b.Valid()
    ensures EncodeAll([a, b]) == Encode(a) + Encode(b)
  {
    EncodeOne(a);
    EncodeOne(b);
    EncodeConcat([a], [b]);
    assert [a] + [b] == [a, b];
  }

  lemma EncodeThree(a: Machine, b: Machine, c: Machine)
    requires a.Valid() && b.Valid() && c.Valid()
    ensures EncodeAll([a, b, c]) == Encode(a) + Encode(b) + Encode(c)
  {
    EncodeTwo(a, b);
    EncodeOne(c);
    EncodeConcat([a, b], [c]);
    assert [a, b] + [c] == [a, b, c];
  }
}

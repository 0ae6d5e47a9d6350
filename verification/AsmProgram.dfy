/** What the assembler's output has to be: the lowered instructions at their offsets, jumps to labels,
    and the literal area behind the code. */
module AsmProgram {
  import opened AsmCode
  import opened AsmText

  const MAX_SRC: nat := 32768
  const MAX_CODE: nat := 8192
  const MAX_LABELS: nat := 128
  const MAX_PRINTS: nat := 64
  const CODE_BASE: nat := 0x001A_0000

  /** The label table: names are kept to 31 characters. */
  datatype LabelDef = LabelDef(name: string, off: nat)

  datatype PrintRef = PrintRef(addrOff: nat, lenOff: nat, text: string, newline: bool)

  predicate AllOpsValid(items: seq<Item>) {
    forall i :: 0 <= i < |items| ==> items[i].Code? ==> items[i].op.Valid()
  }

  // ----- Measures of the items read so far

  function ItemSize(item: Item): nat {
    if item.Code? then item.op.Size() else 0
  }

  function Size(items: seq<Item>): nat {
    if items == [] then 0 else Size(items[..|items| - 1]) + ItemSize(items[|items| - 1])
  }

  function Literal(item: Item): string {
    if item.Code? && item.op.Print? then item.op.text + (if item.op.newline then "\n" else "") else ""
  }

  /** The literal area: the texts one after the other. */
  function Literals(items: seq<Item>): string {
    if items == [] then "" else Literals(items[..|items| - 1]) + Literal(items[|items| - 1])
  }

  function IsPrint(item: Item): bool {
    item.Code? && item.op.Print?
  }

  function Prints(items: seq<Item>): seq<PrintRef> {
    if items == [] then [] else
    var front := items[..|items| - 1];
    var last := items[|items| - 1];
    Prints(front) + if IsPrint(last) then [PrintRef(Size(front) + 12, Size(front) + 22, last.op.text, last.op.newline)] else []
  }

  function Labels(items: seq<Item>): seq<LabelDef> {
    if items == [] then [] else
    var front := items[..|items| - 1];
    var last := items[|items| - 1];
    Labels(front) + if last.Label? then [LabelDef(Cut(last.name, 31), Size(front))] else []
  }

  function FindLabel(labels: seq<LabelDef>, name: string): (k: nat)
    ensures k <= |labels|
    ensures (forall i :: 0 <= i < k ==> labels[i].name != name) && (k < |labels| ==> labels[k].name == name)
  {
    if labels == [] || labels[0].name == name then 0 else 1 + FindLabel(labels[1..], name)
  }

  // ----- Lowering

  /** Where a literal lies and how long it is, or zeros before it is placed. */
  datatype Place = Place(addr: nat, len: nat)

  function Displacement(target: nat, at: nat): nat {
    (target - (at + 5)) % TWO32
  }

  function Target(labels: seq<LabelDef>, name: string): nat {
    var k := FindLabel(labels, name);
    if k < |labels| then labels[k].off else 0
  }

  function LowerOp(op: Op, at: nat, labels: seq<LabelDef>, place: Place): (ms: seq<Machine>)
    requires op.Valid() && place.addr < TWO64 && place.len < TWO64
    ensures AllValid(ms)
  {
    match op
    case Simple(m) => [m]
    case Sleep(ticks) => [Move(0, 5), Move(7, ticks), Interrupt(0x80)]
    case Exit => [Move(0, 2), Interrupt(0x80)]
    case Print(text, newline) => [Move(0, 0), Move(7, place.addr), Move(6, place.len), Two(0x05)]
    case Jump(call_, target) => [Relative(call_, Displacement(Target(labels, target), at))]
  }

  /** Print number `i` of the items, with the code ending at `end`; the first `placed` have places. */
  function PlaceOf(items: seq<Item>, k: nat, end: nat, placed: nat): (p: Place)
    requires k < |items| && (IsPrint(items[k]) ==> items[k].op.Valid())
    ensures p.len < 200 && p.addr < TWO64
  {
    if IsPrint(items[k]) && |Prints(items[..k])| < placed then Place((CODE_BASE + end + |Literals(items[..k])|) % TWO64, |Literal(items[k])|)
    else Place(0, 0)
  }

  /** The machine instructions of the items. */
  function LowerAll(items: seq<Item>, n: nat, labels: seq<LabelDef>, end: nat, placed: nat): (ms: seq<Machine>)
    requires n <= |items| && AllOpsValid(items)
    ensures AllValid(ms)
  {
    if n == 0 then [] else
    LowerAll(items, n - 1, labels, end, placed) +
    if items[n - 1].Code? then LowerOp(items[n - 1].op, Size(items[..n - 1]), labels, PlaceOf(items, n - 1, end, placed)) else []
  }

  /** Their bytes. */
  function Bytes(items: seq<Item>, n: nat, labels: seq<LabelDef>, end: nat, placed: nat): seq<Byte>
    requires n <= |items| && AllOpsValid(items)
  {
    EncodeAll(LowerAll(items, n, labels, end, placed))
  }

  // ----- What is accepted

  predicate LabelFits(items: seq<Item>, i: nat)
    requires i < |items|
  {
    items[i].Label? ==> |Labels(items[..i])| < MAX_LABELS && FindLabel(Labels(items[..i]), items[i].name) == |Labels(items[..i])|
  }

  predicate JumpFits(item: Item, labels: seq<LabelDef>) {
    item.Code? && item.op.Jump? ==> FindLabel(labels, item.op.target) < |labels|
  }

  /** No bad line, labels new and not too many, jumps to known labels, not too many prints, and code
      and literals within the limit. */
  ghost predicate Accepts(items: seq<Item>) {
    && (forall i :: 0 <= i < |items| ==> items[i] != Bad && LabelFits(items, i) && JumpFits(items[i], Labels(items)))
    && |Prints(items)| <= MAX_PRINTS && Size(items) + |Literals(items)| <= MAX_CODE
  }

  // ----- Growth

  lemma Next(items: seq<Item>, n: nat)
    requires n < |items|
    ensures Size(items[..n + 1]) == Size(items[..n]) + ItemSize(items[n])
    ensures Literals(items[..n + 1]) == Literals(items[..n]) + Literal(items[n])
    ensures Prints(items[..n + 1]) == Prints(items[..n]) +
      if IsPrint(items[n]) then [PrintRef(Size(items[..n]) + 12, Size(items[..n]) + 22, items[n].op.text, items[n].op.newline)] else []
    ensures Labels(items[..n + 1]) == Labels(items[..n]) + if items[n].Label? then [LabelDef(Cut(items[n].name, 31), Size(items[..n]))] else []
  {
    assert items[..n + 1][..n] == items[..n];
  }

  lemma {:induction false} Grows(items: seq<Item>, n: nat, m: nat)
    requires n <= m <= |items|
    ensures Size(items[..n]) <= Size(items[..m])
    ensures |Literals(items[..n])| <= |Literals(items[..m])|
    ensures Prints(items[..n]) <= Prints(items[..m])
    ensures Labels(items[..n]) <= Labels(items[..m])
    decreases m - n
  {
    if n < m {
      Grows(items, n, m - 1);
      Next(items, m - 1);
    }
  }

  lemma LowerSize(op: Op, at: nat, labels: seq<LabelDef>, place: Place)
    requires op.Valid() && place.addr < TWO64 && place.len < TWO64
    ensures |EncodeAll(LowerOp(op, at, labels, place))| == op.Size()
  {
    hide Encode;
    match op
    case Simple(m) => EncodeOne(m);
    case Sleep(ticks) => EncodeThree(Move(0, 5), Move(7, ticks), Interrupt(0x80));
    case Exit => EncodeTwo(Move(0, 2), Interrupt(0x80));
    case Print(text, newline) =>
      EncodeTwo(Move(0, 0), Move(7, place.addr));
      EncodeTwo(Move(6, place.len), Two(0x05));
      EncodeConcat([Move(0, 0), Move(7, place.addr)], [Move(6, place.len), Two(0x05)]);
      assert [Move(0, 0), Move(7, place.addr)] + [Move(6, place.len), Two(0x05)] == LowerOp(op, at, labels, place);
    case Jump(call_, target) => EncodeOne(Relative(call_, Displacement(Target(labels, target), at)));
  }

  lemma {:induction false} BytesSize(items: seq<Item>, n: nat, labels: seq<LabelDef>, end: nat, placed: nat)
    requires n <= |items| && AllOpsValid(items)
    ensures |Bytes(items, n, labels, end, placed)| == Size(items[..n])
  {
    if n > 0 {
      BytesSize(items, n - 1, labels, end, placed);
      Next(items, n - 1);
      BytesNext(items, n - 1, labels, end, placed);
      if items[n - 1].Code? { LowerSize(items[n - 1].op, Size(items[..n - 1]), labels, PlaceOf(items, n - 1, end, placed)); }
    }
  }

  lemma BytesNext(items: seq<Item>, n: nat, labels: seq<LabelDef>, end: nat, placed: nat)
    requires n < |items| && AllOpsValid(items)
    ensures Bytes(items, n + 1, labels, end, placed) == Bytes(items, n, labels, end, placed) +
      if items[n].Code? then EncodeAll(LowerOp(items[n].op, Size(items[..n]), labels, PlaceOf(items, n, end, placed))) else []
  {
    hide LowerOp, EncodeAll, PlaceOf;
    if items[n].Code? {
      EncodeConcat(LowerAll(items, n, labels, end, placed), LowerOp(items[n].op, Size(items[..n]), labels, PlaceOf(items, n, end, placed)));
    } else {
      assert LowerAll(items, n + 1, labels, end, placed) == LowerAll(items, n, labels, end, placed);
    }
  }

  // ----- What each pass has found out

  /** The first pass has come through `n` items. */
  ghost predicate FirstOk(items: seq<Item>, n: nat)
    requires n <= |items|
  {
    && (forall i :: 0 <= i < n ==> items[i] != Bad && LabelFits(items, i))
    && Size(items[..n]) <= MAX_CODE && |Literals(items[..n])| <= MAX_CODE
  }

  ghost predicate SecondOk(items: seq<Item>, n: nat)
    requires n <= |items|
  {
    && (forall i :: 0 <= i < n ==> items[i] != Bad && JumpFits(items[i], Labels(items)))
    && Size(items[..n]) <= MAX_CODE && |Prints(items[..n])| <= MAX_PRINTS
  }

  lemma PassesAccept(items: seq<Item>)
    ensures Accepts(items) <==> FirstOk(items, |items|) && SecondOk(items, |items|) && Size(items) + |Literals(items)| <= MAX_CODE
  {
    assert items[..|items|] == items;
  }

  lemma PassFails(items: seq<Item>, n: nat)
    requires n <= |items|
    ensures !FirstOk(items, n) ==> !FirstOk(items, |items|)
    ensures !SecondOk(items, n) ==> !SecondOk(items, |items|)
  {
    Grows(items, n, |items|);
  }

  lemma LabelOffsets(items: seq<Item>, n: nat)
    requires n <= |items|
    ensures forall i :: 0 <= i < |Labels(items[..n])| ==> Labels(items[..n])[i].off <= Size(items[..n])
  {
    if n > 0 {
      LabelOffsets(items, n - 1);
      Next(items, n - 1);
    }
  }

  // ----- Placing a literal

  /** The address and the length in the instructions of a print at `at`. */
  function Patched(bs: seq<Byte>, at: nat, addr: nat, len: nat): seq<Byte>
    requires at + 32 <= |bs|
  {
    bs[..at + 12] + Little(addr, 8) + bs[at + 20..at + 22] + Little(len, 8) + bs[at + 30..]
  }

  lemma PrintBytes(place: Place)
    requires place.addr < TWO64 && place.len < TWO64
    ensures EncodeAll([Move(0, 0), Move(7, place.addr), Move(6, place.len), Two(0x05)]) ==
            Encode(Move(0, 0)) + Encode(Move(7, place.addr)) + Encode(Move(6, place.len)) + Encode(Two(0x05))
  {
    hide Encode;
    EncodeThree(Move(0, 0), Move(7, place.addr), Move(6, place.len));
    EncodeOne(Two(0x05));
    EncodeConcat([Move(0, 0), Move(7, place.addr), Move(6, place.len)], [Two(0x05)]);
    assert [Move(0, 0), Move(7, place.addr), Move(6, place.len)] + [Two(0x05)] == [Move(0, 0), Move(7, place.addr), Move(6, place.len), Two(0x05)];
  }

  /** An unplaced print differs from a placed one in those two words. */
  lemma PrintPatched(op: Op, at: nat, labels: seq<LabelDef>, place: Place)
    requires op.Valid() && op.Print? && place.addr < TWO64 && place.len < TWO64
    ensures var bs := EncodeAll(LowerOp(op, at, labels, Place(0, 0)));
      |bs| == 32 && EncodeAll(LowerOp(op, at, labels, place)) == Patched(bs, 0, place.addr, place.len)
  {
    PrintShape(Place(0, 0));
    PrintShape(place);
    hide Little, EncodeAll, Patched;
    var a, b, c := [0x48, 0xB8] + Little(0, 8) + [0x48, 0xBF], [0x48, 0xBE], [0x0F, 0x05];
    Splice(a, Little(0, 8), b, Little(0, 8), c, place.addr, place.len);
  }

  lemma PrintShape(place: Place)
    requires place.addr < TWO64 && place.len < TWO64
    ensures EncodeAll([Move(0, 0), Move(7, place.addr), Move(6, place.len), Two(0x05)]) ==
            [0x48, 0xB8] + Little(0, 8) + [0x48, 0xBF] + Little(place.addr, 8) + [0x48, 0xBE] + Little(place.len, 8) + [0x0F, 0x05]
  {
    PrintBytes(place);
    hide Little, EncodeAll;
  }

  lemma Splice(a: seq<Byte>, x: seq<Byte>, b: seq<Byte>, y: seq<Byte>, c: seq<Byte>, addr: nat, len: nat)
    requires |a| == 12 && |x| == 8 && |b| == 2 && |y| == 8 && |c| == 2
    ensures Patched(a + x + b + y + c, 0, addr, len) == a + Little(addr, 8) + b + Little(len, 8) + c
  {
    hide Little;
    var bs := a + x + b + y + c;
    assert bs[..12] == a && bs[20..22] == b && bs[30..] == c;
  }

  /** Which item is print number `i`. */
  lemma {:induction false} PrintAt(items: seq<Item>, i: nat) returns (k: nat)
    requires i < |Prints(items)|
    ensures k < |items| && IsPrint(items[k]) && |Prints(items[..k])| == i
    ensures Prints(items)[i] == PrintRef(Size(items[..k]) + 12, Size(items[..k]) + 22, items[k].op.text, items[k].op.newline)
  {
    var front := items[..|items| - 1];
    if i < |Prints(front)| {
      k := PrintAt(front, i);
      assert front[..k] == items[..k];
    } else {
      k := |items| - 1;
    }
  }

  /** Bytes up to an item do not depend on places of later prints. */
  lemma {:induction false} SamePlaces(items: seq<Item>, n: nat, labels: seq<LabelDef>, end: nat, placed: nat)
    requires n <= |items| && AllOpsValid(items) && |Prints(items[..n])| <= placed
    ensures Bytes(items, n, labels, end, placed) == Bytes(items, n, labels, end, placed + 1)
  {
    hide Prints, Size, Literals, Labels;
    if n > 0 {
      Next(items, n - 1);
      SamePlaces(items, n - 1, labels, end, placed);
      BytesNext(items, n - 1, labels, end, placed);
      BytesNext(items, n - 1, labels, end, placed + 1);
      hide Bytes, LowerOp, EncodeAll;
    }
  }

  lemma PatchedMore(bs: seq<Byte>, more: seq<Byte>, at: nat, addr: nat, len: nat)
    requires at + 32 <= |bs|
    ensures Patched(bs + more, at, addr, len) == Patched(bs, at, addr, len) + more
  {
    hide Little;
  }

  lemma PatchedPart(bs: seq<Byte>, n: nat, at: nat, addr: nat, len: nat)
    requires at + 32 <= n <= |bs|
    ensures |Patched(bs, at, addr, len)| == |bs| && Patched(bs, at, addr, len)[..n] == Patched(bs[..n], at, addr, len)
    ensures Patched(bs, at, addr, len)[n..] == bs[n..]
  {
    hide Little;
  }

  lemma PatchedLater(bs: seq<Byte>, more: seq<Byte>, addr: nat, len: nat)
    requires |more| == 32
    ensures Patched(bs + more, |bs|, addr, len) == bs + Patched(more, 0, addr, len)
  {
    hide Little;
  }

  lemma {:induction false} PatchUpTo(items: seq<Item>, n: nat, labels: seq<LabelDef>, end: nat, k: nat, i: nat)
    requires k < n <= |items| && AllOpsValid(items) && IsPrint(items[k]) && |Prints(items[..k])| == i
    ensures Size(items[..k]) + 32 <= |Bytes(items, n, labels, end, i)|
    ensures Bytes(items, n, labels, end, i + 1) ==
      Patched(Bytes(items, n, labels, end, i), Size(items[..k]), PlaceOf(items, k, end, i + 1).addr, PlaceOf(items, k, end, i + 1).len)
  {
    hide Bytes, LowerOp, EncodeAll, Patched, Prints, Size, Literals;
    var at, place := Size(items[..k]), PlaceOf(items, k, end, i + 1);
    BytesNext(items, n - 1, labels, end, i);
    BytesNext(items, n - 1, labels, end, i + 1);
    BytesSize(items, n - 1, labels, end, i);
    if k == n - 1 {
      SamePlaces(items, k, labels, end, i);
      PrintPatched(items[k].op, at, labels, place);
      PatchedLater(Bytes(items, k, labels, end, i), EncodeAll(LowerOp(items[k].op, at, labels, Place(0, 0))), place.addr, place.len);
    } else {
      PatchUpTo(items, n - 1, labels, end, k, i);
      Next(items, k);
      Grows(items, k + 1, n - 1);
      var more := if items[n - 1].Code? then EncodeAll(LowerOp(items[n - 1].op, Size(items[..n - 1]), labels, PlaceOf(items, n - 1, end, i))) else [];
      PatchedMore(Bytes(items, n - 1, labels, end, i), more, at, place.addr, place.len);
    }
  }
}

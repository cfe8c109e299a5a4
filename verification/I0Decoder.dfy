/** The I0 instruction decoder of src/testdecode2.c: bit fields of a working word, table-driven operand sizes,
    and a length check before anything past the header is read. */
module I0Decoder {
  import opened Words

  // --- The format ---

  datatype Status = Decoded | SegmentLimit | UndefinedOperand | UndefinedBranch | UndefinedOpcode

  /** The cases of the decoder. */
  datatype Form = Nop | Alu | Jump | Compare | Zero | IndirJump | Conv | Int | Spawn | Shift | StrCompare | Exit

  /** An operand as the header announces it: data with its attribute, memory, or an immediate of 8 or 1 bytes. */
  datatype Slot = D(attr: bv32, addrm: bv32) | M(addrm: bv32) | I64 | I8

  datatype Header = Header(option: bv32, attr: bv32, attr2: bv32, relative: bool, slots: seq<Slot>)

  datatype Operand = Operand(addrm: bv32, val: nat, disp: nat)

  datatype Instr = Instr(addrSizeMode: bv32, opcode: bv32, header: Header, oprs: seq<Operand>)

  const ATTR_UB: bv32 := 0x04
  const ATTR_UE: bv32 := 0x05

  function Word(b0: bv8, b1: bv8, b2: bv8, b3: bv8): bv32 {
    ((b0 as bv32) << 24) | ((b1 as bv32) << 16) | ((b2 as bv32) << 8) | (b3 as bv32)
  }

  /** `n` bits of `w` from bit `from` on, counted from the top. */
  function Field(w: bv32, from: nat, n: nat): bv32
    requires from + n <= 32 && n > 0
  {
    (w << from) >> (32 - n)
  }

  function OpcodeOf(b0: bv8, b1: bv8): bv32 { Field(Word(b0, b1, 0, 0), 1, 10) }

  function BranchOption(b0: bv8, b1: bv8): bv32 { Field(Word(b0, b1, 0, 0), 11, 4) }

  /** Which case the first two bytes select. */
  function FormOf(b0: bv8, b1: bv8): (Status, Form) {
    var op, option := OpcodeOf(b0, b1), BranchOption(b0, b1);
    if op == 0x00 then (Decoded, Nop)
    else if op == 0x03 || op == 0x06 || op == 0x09 || op == 0x0c || op == 0x18 || op == 0x1b
      || op == 0x1e then (Decoded, Alu)
    else if op == 0x15 then
      if option == 0x00 then (Decoded, Jump)
      else if option == 0x02 || option == 0x03 || option == 0x04 || option == 0x05
        || option == 0x08 then (Decoded, Compare)
      else if option == 0x06 || option == 0x07 then (Decoded, Zero)
      else if option == 0x0c then (Decoded, IndirJump)
      else (UndefinedBranch, Nop)
    else if op == 0x21 then (Decoded, Conv)
    else if op == 0x24 then (Decoded, Int)
    else if op == 0x25 then (Decoded, Spawn)
    else if op == 0x27 then (Decoded, Shift)
    else if op == 0x2a then (Decoded, StrCompare)
    else if op == 0x86 then (Decoded, Exit)
    else (UndefinedOpcode, Nop)
  }

  function HeaderSize(f: Form): (n: nat)
    ensures 2 <= n <= 4
  {
    match f
    case Nop => 2
    case Alu => 3
    case Jump => 2
    case Compare => 4
    case Zero => 3
    case IndirJump => 3
    case Conv => 4
    case Int => 2
    case Spawn => 3
    case Shift => 4
    case StrCompare => 4
    case Exit => 2
  }

  /** The fields of a header, each at its bit position. */
  function Fields(f: Form, w: bv32): Header {
    match f
    case Nop => Header(0, 0, 0, false, [])
    case Alu =>
      var attr := Field(w, 11, 4);
      Header(0, attr, 0, false, [D(attr, Field(w, 15, 3)), D(attr, Field(w, 18, 3)), M(Field(w, 21, 3))])
    case Jump => Header(Field(w, 11, 4), 0, 0, Field(w, 15, 1) == 1, [I64])
    case Compare =>
      var attr := Field(w, 15, 4);
      Header(Field(w, 11, 4), attr, 0, Field(w, 25, 1) == 1, [D(attr, Field(w, 19, 3)), D(attr, Field(w, 22, 3)), I64])
    case Zero =>
      var attr := Field(w, 15, 4);
      Header(Field(w, 11, 4), attr, 0, Field(w, 22, 1) == 1, [D(attr, Field(w, 19, 3)), I64])
    case IndirJump => Header(Field(w, 11, 4), 0, 0, false, [M(Field(w, 15, 3))])
    case Conv =>
      var attr := Field(w, 11, 4);
      Header(0, attr, Field(w, 15, 4), false, [D(attr, Field(w, 19, 3)), M(Field(w, 22, 3))])
    case Int => Header(0, 0, 0, false, [I8])
    case Spawn => Header(0, 0, 0, false,
      [M(Field(w, 11, 3)), M(Field(w, 14, 3)), M(Field(w, 17, 3)), M(Field(w, 20, 3))])
    case Shift =>
      var attr := Field(w, 13, 4);
      Header(Field(w, 11, 2), attr, 0, false,
        [D(attr, Field(w, 17, 3)), D(ATTR_UB, Field(w, 20, 3)), M(Field(w, 23, 3))])
    case StrCompare =>
      Header(0, ATTR_UE, 0, false,
        [M(Field(w, 11, 3)), D(ATTR_UE, Field(w, 14, 3)), M(Field(w, 17, 3)), D(ATTR_UE, Field(w, 20, 3)),
          M(Field(w, 23, 3))])
    case Exit => Header(Field(w, 11, 2), 0, 0, false, [])
  }

  // --- Operand sizes: the tables ---

  /** `I0OprISize`. */
  function ISize(attr: bv32): nat {
    if attr == 0 || attr == 4 then 1 else if attr == 1 || attr == 5 || attr == 9 then 8
    else if attr == 3 || attr == 7 || attr == 8 then 4 else 0
  }

  /** `I0OprMSize`. */
  function MSize(addrm: bv32): nat {
    if addrm == 1 || addrm == 2 then 8 else if addrm == 3 then 12 else 0
  }

  /** `I0OprDSize`. */
  function DSize(attr: bv32, addrm: bv32): nat {
    if ISize(attr) == 0 then 0 else if addrm == 0 then ISize(attr) else MSize(addrm)
  }

  /** Zero for an operand that is not defined. */
  function SlotSize(s: Slot): nat {
    match s
    case D(attr, addrm) => DSize(attr, addrm)
    case M(addrm) => MSize(addrm)
    case I64 => 8
    case I8 => 1
  }

  function SlotsSize(slots: seq<Slot>): nat {
    if slots == [] then 0 else SlotsSize(slots[..|slots| - 1]) + SlotSize(slots[|slots| - 1])
  }

  // --- Decoding as a function ---

  /** Little-endian value of `n` bytes. */
  function LittleEndian(code: seq<bv8>, at: nat, n: nat): nat
    requires at + n <= |code|
    decreases n
  {
    if n == 0 then 0 else code[at] as nat + 256 * LittleEndian(code, at + 1, n - 1)
  }

  /** The word the fields are taken from: the bytes of the header, then zeros. */
  function HeaderWord(code: seq<bv8>, spc: nat, n: nat): bv32
    requires 2 <= n <= 4 && spc + n <= |code|
  {
    Word(code[spc], code[spc + 1], if n > 2 then code[spc + 2] else 0, if n > 3 then code[spc + 3] else 0)
  }

  function OperandAt(code: seq<bv8>, at: nat, s: Slot): Operand
    requires at + SlotSize(s) <= |code| && SlotSize(s) > 0
  {
    match s
    case I64 => Operand(0, LittleEndian(code, at, 8), 0)
    case I8 => Operand(0, LittleEndian(code, at, 1), 0)
    case _ =>
      if s.addrm == 0 then Operand(0, LittleEndian(code, at, SlotSize(s)), 0)
      else if s.addrm == 3 then Operand(s.addrm, LittleEndian(code, at + 4, 8), LittleEndian(code, at, 4))
      else Operand(s.addrm, LittleEndian(code, at, 8), 0)
  }

  predicate AllDefined(slots: seq<Slot>) { forall k :: 0 <= k < |slots| ==> SlotSize(slots[k]) > 0 }

  function OperandsAt(code: seq<bv8>, at: nat, slots: seq<Slot>): (r: seq<Operand>)
    requires at + SlotsSize(slots) <= |code| && AllDefined(slots)
    ensures |r| == |slots|
  {
    if slots == [] then []
    else
      var init := slots[..|slots| - 1];
      OperandsAt(code, at, init) + [OperandAt(code, at + SlotsSize(init), slots[|slots| - 1])]
  }

  /** A relative branch adds the address after its last operand. */
  function Resolved(oprs: seq<Operand>, relative: bool, next: nat): seq<Operand> {
    if relative && oprs != [] then
      var last := oprs[|oprs| - 1];
      oprs[|oprs| - 1 := last.(val := (last.val + next) % WORD)]
    else oprs
  }

  datatype Result = Result(status: Status, instr: Instr, next: nat)

  const NOTHING: Instr := Instr(0, 0, Header(0, 0, 0, false, []), [])

  function Failed(st: Status, spc: nat): Result { Result(st, NOTHING, spc) }

  function DecodeAt(code: seq<bv8>, spc: nat, limit: nat): Result
    requires spc <= limit <= |code|
  {
    if limit - spc < 2 then Failed(SegmentLimit, spc)
    else
      var (st, form) := FormOf(code[spc], code[spc + 1]);
      if !st.Decoded? then Failed(st, spc)
      else if limit - spc < HeaderSize(form) then Failed(SegmentLimit, spc)
      else DecodeForm(code, spc, limit, form)
  }

  function DecodeForm(code: seq<bv8>, spc: nat, limit: nat, form: Form): Result
    requires spc + HeaderSize(form) <= limit <= |code|
  {
    DecodeRest(code, spc, limit, HeaderSize(form), Field(Word(code[spc], 0, 0, 0), 0, 1),
      OpcodeOf(code[spc], code[spc + 1]),
      Fields(form, HeaderWord(code, spc, HeaderSize(form))))
  }

  /** The operands, once the header is known. */
  function DecodeRest(code: seq<bv8>, spc: nat, limit: nat, size: nat, mode: bv32, opcode: bv32, h: Header): Result
    requires spc + size <= limit <= |code|
  {
    var at := spc + size;
    if !AllDefined(h.slots) then Failed(UndefinedOperand, spc)
    else if at + SlotsSize(h.slots) > limit then Failed(SegmentLimit, spc)
    else
      var next := at + SlotsSize(h.slots);
      Result(Decoded, Instr(mode, opcode, h, Resolved(OperandsAt(code, at, h.slots), h.relative, next)), next)
  }

  /** A decoded instruction takes its header and its operands and ends within the limit. */
  lemma DecodedLength(code: seq<bv8>, spc: nat, limit: nat)
    requires spc <= limit <= |code|
    ensures var r := DecodeAt(code, spc, limit);
      if r.status.Decoded? then
        FormOf(code[spc], code[spc + 1]).0.Decoded? && r.next <= limit &&
        r.next == spc + HeaderSize(FormOf(code[spc], code[spc + 1]).1) + SlotsSize(r.instr.header.slots)
      else r.next == spc
  {
  }

  // --- Only its own bytes matter ---

  ghost predicate SameBytes(c: seq<bv8>, d: seq<bv8>, from: nat, to: nat) {
    to <= |c| && to <= |d| && forall k :: from <= k < to ==> c[k] == d[k]
  }

  lemma {:induction false} SameValue(c: seq<bv8>, d: seq<bv8>, at: nat, n: nat)
    requires SameBytes(c, d, at, at + n)
    ensures LittleEndian(c, at, n) == LittleEndian(d, at, n)
    decreases n
  {
    if n > 0 {
      SameValue(c, d, at + 1, n - 1);
    }
  }

  lemma SameOperand(c: seq<bv8>, d: seq<bv8>, at: nat, s: Slot)
    requires SlotSize(s) > 0 && SameBytes(c, d, at, at + SlotSize(s))
    ensures OperandAt(c, at, s) == OperandAt(d, at, s)
  {
    if (s.D? || s.M?) && s.addrm == 3 {
      SameValue(c, d, at, 4);
      SameValue(c, d, at + 4, 8);
    } else {
      SameValue(c, d, at, SlotSize(s));
    }
  }

  lemma {:induction false} SameOperands(c: seq<bv8>, d: seq<bv8>, at: nat, slots: seq<Slot>)
    requires AllDefined(slots) && SameBytes(c, d, at, at + SlotsSize(slots))
    ensures OperandsAt(c, at, slots) == OperandsAt(d, at, slots)
  {
    if slots != [] {
      var init := slots[..|slots| - 1];
      SameOperands(c, d, at, init);
      SameOperand(c, d, at + SlotsSize(init), slots[|slots| - 1]);
    }
  }

  lemma RestLocal(c: seq<bv8>, d: seq<bv8>, spc: nat, limit: nat, limit': nat, size: nat, mode: bv32, opcode: bv32,
      h: Header)
    requires spc + size <= limit <= |c| && spc + size <= limit' <= |d|
    requires var r := DecodeRest(c, spc, limit, size, mode, opcode, h);
      r.status.Decoded? && r.next <= limit' && SameBytes(c, d, spc, r.next)
    ensures DecodeRest(d, spc, limit', size, mode, opcode, h) == DecodeRest(c, spc, limit, size, mode, opcode, h)
  {
    SameOperands(c, d, spc + size, h.slots);
  }

  /** What is decoded depends on the bytes of the instruction only, not on what follows or on the limit. */
  lemma DecodeLocal(c: seq<bv8>, d: seq<bv8>, spc: nat, limit: nat, limit': nat)
    requires spc <= limit <= |c| && spc <= limit' <= |d|
    requires var r := DecodeAt(c, spc, limit); r.status.Decoded? && r.next <= limit' && SameBytes(c, d, spc, r.next)
    ensures DecodeAt(d, spc, limit') == DecodeAt(c, spc, limit)
  {
    var form := FormOf(c[spc], c[spc + 1]).1;
    var n := HeaderSize(form);
    assert c[spc] == d[spc] && c[spc + 1] == d[spc + 1];
    assert HeaderWord(c, spc, n) == HeaderWord(d, spc, n);
    RestLocal(c, d, spc, limit, limit', n, Field(Word(c[spc], 0, 0, 0), 0, 1), OpcodeOf(c[spc], c[spc + 1]),
      Fields(form, HeaderWord(c, spc, n)));
  }

  // --- Decoding step by step ---

  /** The only way the decoder reads a byte: before the limit. */
  function ByteAt(code: seq<bv8>, at: nat, limit: nat): bv8
    requires at < limit <= |code|
  {
    code[at]
  }

  /** After the first fields: bits `top` of the first two bytes are left in the upper half of the working word. */
  predicate Remains(op: bv32, b0: bv8, b1: bv8, top: bv32) { op & 0xffff_0000 == Word(b0, b1, 0, 0) & top }

  /** `LOAD_OP_BYTE2`: the third byte comes into the lower half, with the second one below it. */
  function LoadByte2(op: bv32, b1: bv8, b2: bv8): bv32 { (op & 0xffff_0000) | ((b2 as bv32) << 8) | (b1 as bv32) }

  /** The fields of an arithmetic instruction. */
  method AluBits(op0: bv32, b0: bv8, b1: bv8, b2: bv8) returns (attr: bv32, a0: bv32, a1: bv32, a2: bv32)
    requires Remains(op0, b0, b1, 0x001f_0000)
    ensures attr == Field(Word(b0, b1, b2, 0), 11, 4) && a0 == Field(Word(b0, b1, b2, 0), 15, 3)
    ensures a1 == Field(Word(b0, b1, b2, 0), 18, 3) && a2 == Field(Word(b0, b1, b2, 0), 21, 3)
  {
    var op := LoadByte2(op0, b1, b2);
    attr := op >> 17;
    op := op << 15;
    a0 := op >> 29;
    op := op << 3;
    a1 := op >> 29;
    op := op << 3;
    a2 := op >> 29;
  }

  method ParseAlu(code: seq<bv8>, spc: nat, limit: nat, op: bv32) returns (h: Header)
    requires spc + 3 <= limit <= |code| && Remains(op, code[spc], code[spc + 1], 0x001f_0000)
    ensures h == Fields(Alu, HeaderWord(code, spc, 3))
  {
    var attr, a0, a1, a2 := AluBits(op, ByteAt(code, spc, limit), ByteAt(code, spc + 1, limit),
      ByteAt(code, spc + 2, limit));
    h := Header(0, attr, 0, false, [D(attr, a0), D(attr, a1), M(a2)]);
  }

  method JumpBits(op: bv32, b0: bv8, b1: bv8) returns (ra: bv32)
    requires Remains(op, b0, b1, 0x0001_0000)
    ensures ra == Field(Word(b0, b1, 0, 0), 15, 1)
  {
    ra := op >> 16;
  }

  method ParseJump(code: seq<bv8>, spc: nat, limit: nat, op: bv32, option: bv32) returns (h: Header)
    requires spc + 2 <= limit <= |code| && Remains(op, code[spc], code[spc + 1], 0x0001_0000)
    requires option == BranchOption(code[spc], code[spc + 1])
    ensures h == Fields(Jump, HeaderWord(code, spc, 2))
  {
    var ra := JumpBits(op, ByteAt(code, spc, limit), ByteAt(code, spc + 1, limit));
    h := Header(option, 0, 0, ra == 1, [I64]);
  }

  /** `LOAD_OP_DWORD_AND_SH`: all four bytes. */
  method LoadDword(code: seq<bv8>, spc: nat, limit: nat) returns (op: bv32)
    requires spc + 4 <= limit <= |code|
    ensures op == HeaderWord(code, spc, 4)
  {
    op := Word(ByteAt(code, spc, limit), ByteAt(code, spc + 1, limit), ByteAt(code, spc + 2, limit),
      ByteAt(code, spc + 3, limit));
  }

  /** The option of a branch is in the first two bytes. */
  lemma OptionInWord(b0: bv8, b1: bv8, b2: bv8, b3: bv8)
    ensures BranchOption(b0, b1) == Field(Word(b0, b1, b2, b3), 11, 4)
  {
  }

  method CompareBits(w: bv32) returns (attr: bv32, a0: bv32, a1: bv32, ra: bv32)
    ensures attr == Field(w, 15, 4) && a0 == Field(w, 19, 3) && a1 == Field(w, 22, 3) && ra == Field(w, 25, 1)
  {
    var op := w << 15;
    attr := op >> 28;
    op := op << 4;
    a0 := op >> 29;
    op := op << 3;
    a1 := op >> 29;
    op := op << 3;
    ra := op >> 31;
  }

  method ParseCompare(code: seq<bv8>, spc: nat, limit: nat, option: bv32) returns (h: Header)
    requires spc + 4 <= limit <= |code| && option == BranchOption(code[spc], code[spc + 1])
    ensures h == Fields(Compare, HeaderWord(code, spc, 4))
  {
    var op := LoadDword(code, spc, limit);
    OptionInWord(code[spc], code[spc + 1], code[spc + 2], code[spc + 3]);
    var attr, a0, a1, ra := CompareBits(op);
    h := Header(option, attr, 0, ra == 1, [D(attr, a0), D(attr, a1), I64]);
  }

  method ZeroBits(op0: bv32, b0: bv8, b1: bv8, b2: bv8) returns (attr: bv32, a0: bv32, ra: bv32)
    requires Remains(op0, b0, b1, 0x0001_0000)
    ensures attr == Field(Word(b0, b1, b2, 0), 15, 4) && a0 == Field(Word(b0, b1, b2, 0), 19, 3)
    ensures ra == Field(Word(b0, b1, b2, 0), 22, 1)
  {
    var op := LoadByte2(op0, b1, b2);
    attr := op >> 13;
    op := op << 19;
    a0 := op >> 29;
    op := op << 3;
    ra := op >> 31;
  }

  method ParseZero(code: seq<bv8>, spc: nat, limit: nat, op: bv32, option: bv32) returns (h: Header)
    requires spc + 3 <= limit <= |code| && Remains(op, code[spc], code[spc + 1], 0x0001_0000)
    requires option == BranchOption(code[spc], code[spc + 1])
    ensures h == Fields(Zero, HeaderWord(code, spc, 3))
  {
    var attr, a0, ra := ZeroBits(op, ByteAt(code, spc, limit), ByteAt(code, spc + 1, limit),
      ByteAt(code, spc + 2, limit));
    OptionInWord(code[spc], code[spc + 1], code[spc + 2], 0);
    h := Header(option, attr, 0, ra == 1, [D(attr, a0), I64]);
  }

  method IndirJumpBits(op0: bv32, b0: bv8, b1: bv8, b2: bv8) returns (a0: bv32)
    requires Remains(op0, b0, b1, 0x0001_0000)
    ensures a0 == Field(Word(b0, b1, b2, 0), 15, 3)
  {
    var op := LoadByte2(op0, b1, b2);
    assert op >> 8 == (Word(b0, b1, b2, 0) & 0x0001_ff00) >> 8;
    a0 := op >> 14;
    assert a0 == (op >> 8) >> 6;
  }

  method ParseIndirJump(code: seq<bv8>, spc: nat, limit: nat, op: bv32, option: bv32) returns (h: Header)
    requires spc + 3 <= limit <= |code| && Remains(op, code[spc], code[spc + 1], 0x0001_0000)
    requires option == BranchOption(code[spc], code[spc + 1])
    ensures h == Fields(IndirJump, HeaderWord(code, spc, 3))
  {
    var a0 := IndirJumpBits(op, ByteAt(code, spc, limit), ByteAt(code, spc + 1, limit), ByteAt(code, spc + 2, limit));
    OptionInWord(code[spc], code[spc + 1], code[spc + 2], 0);
    h := Header(option, 0, 0, false, [M(a0)]);
  }

  method ConvBits(w: bv32) returns (attr: bv32, attr2: bv32, a0: bv32, a1: bv32)
    ensures attr == Field(w, 11, 4) && attr2 == Field(w, 15, 4) && a0 == Field(w, 19, 3) && a1 == Field(w, 22, 3)
  {
    var op := w << 11;
    attr := op >> 28;
    op := op << 4;
    attr2 := op >> 28;
    op := op << 4;
    a0 := op >> 29;
    op := op << 3;
    a1 := op >> 29;
  }

  method ParseConv(code: seq<bv8>, spc: nat, limit: nat) returns (h: Header)
    requires spc + 4 <= limit <= |code|
    ensures h == Fields(Conv, HeaderWord(code, spc, 4))
  {
    var op := LoadDword(code, spc, limit);
    var attr, attr2, a0, a1 := ConvBits(op);
    h := Header(0, attr, attr2, false, [D(attr, a0), M(a1)]);
  }

  method SpawnBits(op0: bv32, b0: bv8, b1: bv8, b2: bv8) returns (a0: bv32, a1: bv32, a2: bv32, a3: bv32)
    requires Remains(op0, b0, b1, 0x001f_0000)
    ensures a0 == Field(Word(b0, b1, b2, 0), 11, 3) && a1 == Field(Word(b0, b1, b2, 0), 14, 3)
    ensures a2 == Field(Word(b0, b1, b2, 0), 17, 3) && a3 == Field(Word(b0, b1, b2, 0), 20, 3)
  {
    var op := LoadByte2(op0, b1, b2);
    a0 := op >> 18;
    op := op << 14;
    a1 := op >> 29;
    op := op << 3;
    a2 := op >> 29;
    op := op << 3;
    a3 := op >> 29;
  }

  method ParseSpawn(code: seq<bv8>, spc: nat, limit: nat, op: bv32) returns (h: Header)
    requires spc + 3 <= limit <= |code| && Remains(op, code[spc], code[spc + 1], 0x001f_0000)
    ensures h == Fields(Spawn, HeaderWord(code, spc, 3))
  {
    var a0, a1, a2, a3 := SpawnBits(op, ByteAt(code, spc, limit), ByteAt(code, spc + 1, limit),
      ByteAt(code, spc + 2, limit));
    h := Header(0, 0, 0, false, [M(a0), M(a1), M(a2), M(a3)]);
  }

  method ShiftBits(w: bv32) returns (option: bv32, attr: bv32, a0: bv32, a1: bv32, a2: bv32)
    ensures option == Field(w, 11, 2) && attr == Field(w, 13, 4) && a0 == Field(w, 17, 3) && a1 == Field(w, 20, 3)
      && a2 == Field(w, 23, 3)
  {
    var op := w << 11;
    option := op >> 30;
    op := op << 2;
    attr := op >> 28;
    op := op << 4;
    a0 := op >> 29;
    op := op << 3;
    a1 := op >> 29;
    op := op << 3;
    a2 := op >> 29;
  }

  method ParseShift(code: seq<bv8>, spc: nat, limit: nat) returns (h: Header)
    requires spc + 4 <= limit <= |code|
    ensures h == Fields(Shift, HeaderWord(code, spc, 4))
  {
    var op := LoadDword(code, spc, limit);
    var option, attr, a0, a1, a2 := ShiftBits(op);
    h := Header(option, attr, 0, false, [D(attr, a0), D(ATTR_UB, a1), M(a2)]);
  }

  method StrCompareBits(w: bv32) returns (a0: bv32, a1: bv32, a2: bv32, a3: bv32, a4: bv32)
    ensures a0 == Field(w, 11, 3) && a1 == Field(w, 14, 3) && a2 == Field(w, 17, 3) && a3 == Field(w, 20, 3)
      && a4 == Field(w, 23, 3)
  {
    var op := w << 11;
    a0 := op >> 29;
    op := op << 3;
    a1 := op >> 29;
    op := op << 3;
    a2 := op >> 29;
    op := op << 3;
    a3 := op >> 29;
    op := op << 3;
    a4 := op >> 29;
  }

  method ParseStrCompare(code: seq<bv8>, spc: nat, limit: nat) returns (h: Header)
    requires spc + 4 <= limit <= |code|
    ensures h == Fields(StrCompare, HeaderWord(code, spc, 4))
  {
    var op := LoadDword(code, spc, limit);
    var a0, a1, a2, a3, a4 := StrCompareBits(op);
    h := Header(0, ATTR_UE, 0, false, [M(a0), D(ATTR_UE, a1), M(a2), D(ATTR_UE, a3), M(a4)]);
  }

  /** The header of an instruction of a known form. */
  method ParseHeader(code: seq<bv8>, spc: nat, limit: nat, form: Form, op: bv32, op1: bv32, option: bv32)
      returns (h: Header)
    requires spc + HeaderSize(form) <= limit <= |code| && FormOf(code[spc], code[spc + 1]) == (Decoded, form)
    requires Remains(op, code[spc], code[spc + 1], 0x001f_0000) && Remains(op1, code[spc], code[spc + 1], 0x0001_0000)
    requires option == BranchOption(code[spc], code[spc + 1])
    ensures h == Fields(form, HeaderWord(code, spc, HeaderSize(form)))
  {
    match form
    case Nop => h := Header(0, 0, 0, false, []);
    case Alu => h := ParseAlu(code, spc, limit, op);
    case Jump => h := ParseJump(code, spc, limit, op1, option);
    case Compare => h := ParseCompare(code, spc, limit, option);
    case Zero => h := ParseZero(code, spc, limit, op1, option);
    case IndirJump => h := ParseIndirJump(code, spc, limit, op1, option);
    case Conv => h := ParseConv(code, spc, limit);
    case Int => h := Header(0, 0, 0, false, [I8]);
    case Spawn => h := ParseSpawn(code, spc, limit, op);
    case Shift => h := ParseShift(code, spc, limit);
    case StrCompare => h := ParseStrCompare(code, spc, limit);
    case Exit =>
      var exit := op >> 19;
      h := Header(exit, 0, 0, false, []);
  }

  /** Little-endian load of `n` bytes. */
  method LoadValue(code: seq<bv8>, at: nat, n: nat, limit: nat) returns (v: nat)
    requires at + n <= limit <= |code|
    ensures v == LittleEndian(code, at, n)
  {
    v := 0;
    var k := n;
    while k > 0
      invariant 0 <= k <= n && v == LittleEndian(code, at + k, n - k)
    {
      k := k - 1;
      v := ByteAt(code, at + k, limit) as nat + 256 * v;
    }
  }

  /** `DECODE_OPR_D`, `DECODE_OPR_M`, `GET_INST_OPR_I64` and `GET_INST_OPR_I8`: the operand, and the place after it. */
  method DecodeOpr(code: seq<bv8>, at0: nat, s: Slot, limit: nat) returns (opr: Operand, at: nat)
    requires SlotSize(s) > 0 && at0 + SlotSize(s) <= limit <= |code|
    ensures at == at0 + SlotSize(s) && opr == OperandAt(code, at0, s)
  {
    at := at0;
    match s
    case I64 =>
      var v := LoadValue(code, at, 8, limit);
      at := at + 8;
      opr := Operand(0, v, 0);
    case I8 =>
      var v := LoadValue(code, at, 1, limit);
      at := at + 1;
      opr := Operand(0, v, 0);
    case D(attr, addrm) =>
      if addrm == 0 {
        var v := 0;
        if attr == 0 || attr == 4 {
          v := LoadValue(code, at, 1, limit);
          at := at + 1;
        } else if attr == 1 || attr == 5 || attr == 9 {
          v := LoadValue(code, at, 8, limit);
          at := at + 8;
        } else if attr == 3 || attr == 7 || attr == 8 {
          v := LoadValue(code, at, 4, limit);
          at := at + 4;
        }
        opr := Operand(0, v, 0);
      } else {
        opr, at := DecodeOprM(code, at, addrm, limit);
      }
    case M(addrm) =>
      opr, at := DecodeOprM(code, at, addrm, limit);
  }

  method DecodeOprM(code: seq<bv8>, at0: nat, addrm: bv32, limit: nat) returns (opr: Operand, at: nat)
    requires MSize(addrm) > 0 && at0 + MSize(addrm) <= limit <= |code|
    ensures at == at0 + MSize(addrm) && opr == OperandAt(code, at0, M(addrm))
  {
    at := at0;
    var disp32 := 0;
    if addrm == 3 {
      disp32 := LoadValue(code, at, 4, limit);
      at := at + 4;
    }
    var v := LoadValue(code, at, 8, limit);
    at := at + 8;
    opr := Operand(addrm, v, disp32);
  }

  lemma SlotsNext(slots: seq<Slot>, k: nat)
    requires k < |slots|
    ensures SlotsSize(slots[..k + 1]) == SlotsSize(slots[..k]) + SlotSize(slots[k])
  {
    assert slots[..k + 1][..k] == slots[..k];
  }

  lemma {:induction false} SlotsGrow(slots: seq<Slot>, k: nat)
    requires k <= |slots|
    ensures SlotsSize(slots[..k]) <= SlotsSize(slots)
    decreases |slots| - k
  {
    if k < |slots| {
      SlotsNext(slots, k);
      SlotsGrow(slots, k + 1);
    } else {
      assert slots[..k] == slots;
    }
  }

  /** The sizes of the operands, up to the first that is not defined. */
  method OperandSizes(slots: seq<Slot>) returns (ok: bool, size: nat)
    ensures ok <==> AllDefined(slots)
    ensures ok ==> size == SlotsSize(slots)
  {
    ok, size := true, 0;
    for k := 0 to |slots|
      invariant size == SlotsSize(slots[..k]) && forall j :: 0 <= j < k ==> SlotSize(slots[j]) > 0
    {
      if SlotSize(slots[k]) == 0 {
        return false, 0;
      }
      SlotsNext(slots, k);
      size := size + SlotSize(slots[k]);
    }
    assert slots[..|slots|] == slots;
  }

  lemma SizesNext(slots: seq<Slot>, k: nat)
    requires k < |slots| && AllDefined(slots)
    ensures SlotsSize(slots[..k + 1]) == SlotsSize(slots[..k]) + SlotSize(slots[k]) <= SlotsSize(slots)
  {
    SlotsNext(slots, k);
    SlotsGrow(slots, k + 1);
  }

  lemma OperandsNext(code: seq<bv8>, at: nat, slots: seq<Slot>, k: nat)
    requires k < |slots| && AllDefined(slots) && at + SlotsSize(slots) <= |code|
    requires SlotsSize(slots[..k + 1]) == SlotsSize(slots[..k]) + SlotSize(slots[k]) <= SlotsSize(slots)
    ensures OperandsAt(code, at, slots[..k + 1]) ==
      OperandsAt(code, at, slots[..k]) + [OperandAt(code, at + SlotsSize(slots[..k]), slots[k])]
  {
    var t := slots[..k + 1];
    assert t[..|t| - 1] == slots[..k];
  }

  method DecodeOperands(code: seq<bv8>, at0: nat, slots: seq<Slot>, limit: nat) returns (oprs: seq<Operand>, at: nat)
    requires AllDefined(slots) && at0 + SlotsSize(slots) <= limit <= |code|
    ensures at == at0 + SlotsSize(slots) && oprs == OperandsAt(code, at0, slots)
  {
    oprs, at := [], at0;
    for k := 0 to |slots|
      invariant at == at0 + SlotsSize(slots[..k]) && at <= limit && oprs == OperandsAt(code, at0, slots[..k])
    {
      SizesNext(slots, k);
      OperandsNext(code, at0, slots, k);
      var opr;
      opr, at := DecodeOpr(code, at, slots[k], limit);
      oprs := oprs + [opr];
    }
    assert slots[..|slots|] == slots;
  }

  /** The switch on the opcode that the working word gave, and inside it the one on the option of a branch. */
  method SelectForm(opcode: bv32, option: bv32, ghost b0: bv8, ghost b1: bv8) returns (st: Status, form: Form)
    requires opcode == OpcodeOf(b0, b1) && option == BranchOption(b0, b1)
    ensures (st, form) == FormOf(b0, b1)
  {
    st := Decoded;
    match opcode
    case 0x00 => form := Nop;
    case 0x03 | 0x06 | 0x09 | 0x0c | 0x18 | 0x1b | 0x1e => form := Alu;
    case 0x15 =>
      match option {
        case 0x00 => form := Jump;
        case 0x02 | 0x03 | 0x04 | 0x05 | 0x08 => form := Compare;
        case 0x06 | 0x07 => form := Zero;
        case 0x0c => form := IndirJump;
        case _ => st, form := UndefinedBranch, Nop;
      }
    case 0x21 => form := Conv;
    case 0x24 => form := Int;
    case 0x25 => form := Spawn;
    case 0x27 => form := Shift;
    case 0x2a => form := StrCompare;
    case 0x86 => form := Exit;
    case _ => st, form := UndefinedOpcode, Nop;
  }

  /** `TranslateI0ToNative` up to the translation itself. The lower half of the working word starts as `garbage`. */
  method DecodeInstr(code: seq<bv8>, spc: nat, limit: nat, garbage: bv16) returns (r: Result)
    requires spc <= limit <= |code|
    ensures r == DecodeAt(code, spc, limit)
  {
    if limit - spc < 2 {
      return Failed(SegmentLimit, spc);
    }
    var b0, b1 := ByteAt(code, spc, limit), ByteAt(code, spc + 1, limit);
    var op := Word(b0, b1, 0, 0) | (garbage as bv32);
    var opcode := op >> 21;
    op := op & 0x001f_ffff;
    var mode := opcode >> 10;
    opcode := opcode & 0x3ff;
    var option := op >> 17;
    var op1 := op & 0x0001_ffff;
    var st, form := SelectForm(opcode, option, b0, b1);
    if !st.Decoded? {
      return Failed(st, spc);
    }
    if limit - spc < HeaderSize(form) {
      return Failed(SegmentLimit, spc);
    }
    var h := ParseHeader(code, spc, limit, form, op, op1, option);
    r := DecodeBody(code, spc, limit, HeaderSize(form), mode, opcode, h);
  }

  method DecodeBody(code: seq<bv8>, spc: nat, limit: nat, size: nat, mode: bv32, opcode: bv32, h: Header)
      returns (r: Result)
    requires spc + size <= limit <= |code|
    ensures r == DecodeRest(code, spc, limit, size, mode, opcode, h)
  {
    var ok, operands := OperandSizes(h.slots);
    if !ok {
      return Failed(UndefinedOperand, spc);
    }
    if spc + size + operands > limit {
      return Failed(SegmentLimit, spc);
    }
    var oprs, next := DecodeOperands(code, spc + size, h.slots, limit);
    r := Result(Decoded, Instr(mode, opcode, h, Resolved(oprs, h.relative, next)), next);
  }

  // --- A segment ---

  /** Instruction after instruction, `starts` are where they begin; the last one ends at `end`. */
  ghost predicate Tiles(code: seq<bv8>, limit: nat, starts: seq<nat>, from: nat, end: nat)
    requires limit <= |code|
  {
    && (if starts == [] then from == end else starts[0] == from)
    && forall k {:trigger starts[k]} :: 0 <= k < |starts| ==>
      && starts[k] <= limit && DecodeAt(code, starts[k], limit).status.Decoded?
      && DecodeAt(code, starts[k], limit).next == if k + 1 < |starts| then starts[k + 1] else end
  }

  /** Decodes until the segment ends or an instruction cannot be decoded: no byte is skipped or taken twice. */
  method DecodeSegment(code: seq<bv8>, from: nat, limit: nat, garbage: bv16)
      returns (starts: seq<nat>, end: nat, st: Status)
    requires from <= limit <= |code|
    ensures from <= end <= limit && Tiles(code, limit, starts, from, end)
    ensures !st.Decoded? && st == DecodeAt(code, end, limit).status && 2 * |starts| <= end - from
  {
    starts, end := [], from;
    while true
      invariant from <= end <= limit && Tiles(code, limit, starts, from, end) && 2 * |starts| <= end - from
      decreases limit - end
    {
      var r := DecodeInstr(code, end, limit, garbage);
      DecodedLength(code, end, limit);
      st := r.status;
      if !st.Decoded? {
        break;
      }
      TilesNext(code, limit, starts, from, end);
      starts, end := starts + [end], r.next;
    }
  }

  lemma TilesNext(code: seq<bv8>, limit: nat, starts: seq<nat>, from: nat, end: nat)
    requires end <= limit <= |code| && Tiles(code, limit, starts, from, end)
      && DecodeAt(code, end, limit).status.Decoded?
    ensures Tiles(code, limit, starts + [end], from, DecodeAt(code, end, limit).next)
  {
    var all := starts + [end];
    forall k {:trigger all[k]} | 0 <= k < |all| ensures
      && all[k] <= limit && DecodeAt(code, all[k], limit).status.Decoded?
      && DecodeAt(code, all[k], limit).next == if k + 1 < |all| then all[k + 1] else DecodeAt(code, end, limit).next {
      if k < |starts| {
        assert all[k] == starts[k];
      }
    }
  }

  /** Two decodings of a segment from one place agree as far as both go, whatever their limits. */
  lemma {:induction false} TilesAgree(code: seq<bv8>, limit: nat, limit': nat, s: seq<nat>, t: seq<nat>, from: nat,
      end: nat, end': nat, k: nat)
    requires limit <= limit' <= |code| && Tiles(code, limit, s, from, end) && Tiles(code, limit', t, from, end')
    requires k < |s| && k < |t|
    ensures s[k] == t[k]
  {
    if k > 0 {
      TilesAgree(code, limit, limit', s, t, from, end, end', k - 1);
      assert s[k - 1] == t[k - 1];
      DecodedLength(code, s[k - 1], limit);
      DecodeLocal(code, code, s[k - 1], limit, limit');
    }
  }
}
